# Directed graphs as incidence matrices

The repository implements directed graphs stored as an incidence matrix. Each vertex
owns one row of an `ArrayList` of rows, and each edge owns one column. In a column the
edge's tail holds `SOURCE`, its head holds `TARGET` and every other vertex holds
`NONE`. Vertices are the integers `0 .. numberOfVertices - 1`.

On top of the matrix the classes offer:

- adding and removing vertices and edges;
- membership and adjacency queries and the edge set;
- a cycle check;
- breadth-first and depth-first visit trees and depth-first forests;
- a topological sort (Kahn's algorithm run on a copy of the matrix);
- the transposed graph;
- strongly connected components (Kosaraju's two passes).

Three classes are modelled:

- `Plain.IncidMatrixDir` models `src/main/upo.graph.impl/IncidMatrixDir.java`, the
  cells of which are `Incidence` markers.
- `Weighted.IncidMatrixDirWeight` models `src/main/upo.graph.impl/IncidMatrixDirWeight.java`.
  Its cells are `Node` objects that carry a marker and a weight, and it adds edge
  weights.
- `Checkpoint.IncidMatrixDir` models `Davide-Castellani-CP1/src/main/upo.graph.impl/IncidMatrixDir.java`.
  This is an earlier version whose cells are plain integers: the source end holds 1,
  the target end holds -1 and an empty cell holds 0. Its topological sort marks
  picked rows with -2.

Besides the classes, `Incidences` models the `Incidence` enumeration and `Nodes` the
`Node` cell class.

Each class keeps the source's fields:

- `matrix`, a sequence of rows;
- `numberOfVertices`, an `int` that can become negative, as in Java;
- `numberOfEdge`.

Its methods update these fields. Every class exposes a snapshot `View()` of type
`Graphs.Mat`, and the contracts are stated against that snapshot:

- `Graphs.Cell` reads a marker, and reads `NONE` outside the matrix.
- `Graphs.Arc(g, s, t)` holds exactly when some column has `SOURCE` in vertex row `s`
  and `TARGET` in vertex row `t`.
- `EdgeSet`, `Succ`, `Reachable`, `HasCycle` and `Transposed` are the usual graph notions
  built on `Arc`.
- `Consistent` is the shape every operation keeps: every row, stale rows included, as
  long as the column count, at most one `SOURCE` and one `TARGET` per column, every column sourced, and no two columns for the same pair.
  `Valid` adds that the matrix has exactly `numberOfVertices` rows.

The loops shared by the three classes live in separate modules:

- `Scans`: the column scans;
- `Kahn`: the rounds of the topological sort;
- `Traversal`: the visits, working on a `Visit` value that stands for the source's
  `VisitResult`.

A class method calls the loop and inherits its contract.

Some of the code's behaviour is surprising, and the model follows the code:

- `removeVertex` calls `matrix.remove(Integer)`. That call looks for a row *equal to*
  the boxed integer, and no row is. So no row is deleted: the only effect is that the
  vertex count drops by one, and the highest vertex leaves the graph. `RemoveVertex`
  states exactly that.
- The three classes differ in their bounds checks:
  - `containsVertex`: the main class tests `numberOfVertices > i`, the weighted class
    `i < numberOfVertices`, and the earlier version `numberOfVertices >= i`.
  - `removeVertex` fails: in the main class when `numberOfVertices <= i`; in the other
    two when `numberOfVertices < i`.
  - `removeEdge` in the main class and the earlier version checks only the upper
    bounds. A negative end then throws `IndexOutOfBounds` only when the column scan
    reaches its row: a negative source at the first column, a negative target only at a
    column whose source row holds `SOURCE`, since `&&` stops at a false left side. When
    the scan never reaches the negative row (no columns, or no `SOURCE` in the source
    row) the result is `NoSuchElement`.
- The earlier version's `isDAG` returns `isCyclic()`, and its `containsVertex(numberOfVertices)`
  is true. Its own tests assert both, so both are modelled as written.
- The weighted `topologicalSort` works on a deep copy of the nodes and clears only the
  rows below `numberOfVertices`. The main class clears every row of the copy.
- The weighted `isCyclic`, visits and components build a `VisitResult` without calling
  `initGraph`. The model reads a vertex without a colour entry as `WHITE`, so these
  start from the same all-`WHITE` colouring.
- The earlier version's `getEdges` takes the row holding -1 as the source, although
  `addEdge` writes -1 at the target, so it reports every edge turned around. Its
  `topologicalSort` never consults a visited set. These two are the findings below.

## Model

| member | source | states |
|---|---|---|
| Incidences.Incidence.GetValue | src/main/upo.graph.impl/Incidence.java:1-14 | NONE carries 0, SOURCE a negative value and TARGET a positive one, all within -1..1 |
| Incidences.OfValue | src/main/upo.graph.impl/Incidence.java:1-10 | a marker exists for an integer exactly when it lies in -1..1 |
| Incidences.OfValueGetValue | src/main/upo.graph.impl/Incidence.java:1-14 | every marker is recovered from its value (round trip) |
| Incidences.GetValueOfValue | src/main/upo.graph.impl/Incidence.java:1-14 | every value in -1..1 belongs to a marker that carries it back (the other round trip) |
| Incidences.GetValueInjective | src/main/upo.graph.impl/Incidence.java:2-4 | distinct markers carry distinct values |
| Nodes.Node.constructor | src/main/upo.graph.impl/Node.java:6-9 | a new node is NONE with weight INFINITY |
| Nodes.Node.MakeNode | src/main/upo.graph.impl/Node.java:11-14 | both fields take the given marker and weight |
| Nodes.Node.PutDirection | src/main/upo.graph.impl/Node.java:16-18 | only the direction changes; the weight is kept |
| Nodes.Node.PudWeight | src/main/upo.graph.impl/Node.java:20-22 | only the weight changes; the direction is kept |
| Nodes.Node.GetDirection | src/main/upo.graph.impl/Node.java:24-26 | reads the node's current direction |
| Nodes.Node.GetWeight | src/main/upo.graph.impl/Node.java:28-30 | reads the node's current weight |
| Graphs.InEdgeSet | src/main/upo.graph.impl/IncidMatrixDir.java:41-63 | a pair is in the edge set exactly when a column joins it |
| Graphs.WithRowKeepsEdges | src/main/upo.graph.impl/IncidMatrixDir.java:20-29 | appending a NONE row to a valid matrix keeps it valid and keeps every edge |
| Graphs.WithRowConsistent | src/main/upo.graph.impl/IncidMatrixDir.java:20-29 | appending a NONE row keeps a consistent matrix consistent |
| Graphs.WithColumnEdges | src/main/upo.graph.impl/IncidMatrixDir.java:92-101 | a new SOURCE/TARGET column for an absent pair keeps the matrix valid and adds exactly that edge (none for a loop s == t: the row gets SOURCE and the column no TARGET) |
| Graphs.WithoutColumnEdges | src/main/upo.graph.impl/IncidMatrixDir.java:138-140 | dropping the one column joining s to t keeps the matrix consistent and removes exactly the edge (s, t) |
| Graphs.FewerVertices | src/main/upo.graph.impl/IncidMatrixDir.java:71-75 | lowering the vertex count keeps consistency and keeps exactly the arcs between the remaining vertices |
| Graphs.TransposedReach | src/main/upo.graph.impl/IncidMatrixDir.java:378-402 | a path in the transposed graph is a reversed path in the original |
| Graphs.RankForbidsCycle | src/main/upo.graph.impl/IncidMatrixDir.java:326-346 | a ranking that falls along every edge rules out a cycle |
| Graphs.PredecessorsGiveCycle | src/main/upo.graph.impl/IncidMatrixDir.java:348-365 | if every vertex of a nonempty set has a predecessor in the set, the graph has a cycle |
| Tables.RemoveColumn | src/main/upo.graph.impl/IncidMatrixDir.java:138-140 | the row loop of removeEdge deletes column c from each row below the limit (every row here, the vertex rows in the weighted class's lines 191-193), shifting later cells left, and leaves the other rows alone |
| Scans.ColumnOf | src/main/upo.graph.impl/IncidMatrixDir.java:84-89 | the column the duplicate check stops at: -1 exactly when no column joins s to t, otherwise the first one that does |
| Scans.JoinScanInRange | src/main/upo.graph.impl/IncidMatrixDir.java:84-89 | with both rows in the matrix the scan cannot throw and finds ColumnOf; it finds -1 exactly when no column joins the pair |
| Scans.FindColumn | src/main/upo.graph.impl/IncidMatrixDir.java:84-89 | the scan loop yields the scan's result, including IndexOutOfBounds for a negative row |
| Scans.Adjacent | src/main/upo.graph.impl/IncidMatrixDir.java:146-163 | the loop collects exactly the heads of the arcs leaving v |
| Scans.ColumnEnds | src/main/upo.graph.impl/IncidMatrixDir.java:48-55 | the inner loop finds the column's SOURCE row and TARGET row among the vertices, when present |
| Scans.EdgeScan | src/main/upo.graph.impl/IncidMatrixDir.java:41-63 | the edge loop yields exactly the edge set |
| Scans.EdgesBelowAll | src/main/upo.graph.impl/IncidMatrixDir.java:41-63 | the pairs of all columns, taken together, are the edge set |
| Scans.FlippedArcs | src/main/upo.graph.impl/IncidMatrixDir.java:415-435 | a graph holding each edge turned around has every arc reversed |
| Kahn.FreeFrom | src/main/upo.graph.impl/IncidMatrixDir.java:348-365 | the first unvisited row with no TARGET at or after j, or -1; every row skipped is visited or has an incoming edge |
| Kahn.FindFree | src/main/upo.graph.impl/IncidMatrixDir.java:348-365 | the loop of getVertexWithoutIncomingEdge returns the lowest free row of the copy |
| Kahn.Cleared | src/main/upo.graph.impl/IncidMatrixDir.java:367-375 | the copy after removing v's outgoing edges: every column v sources is NONE in the rows below the limit, and every other cell is unchanged |
| Kahn.RemoveOutgoing | src/main/upo.graph.impl/IncidMatrixDir.java:367-375 | the nested loops produce the cleared copy |
| Kahn.SortRounds | src/main/upo.graph.impl/IncidMatrixDir.java:337-343 | the round loop computes the rounds of Kahn's algorithm, Unsupported when no free vertex is left |
| Kahn.RoundsSucceed | src/main/upo.graph.impl/IncidMatrixDir.java:337-343 | on a valid acyclic graph every round finds a vertex and the list built is a topological order |
| Kahn.TopoSortCorrect | src/main/upo.graph.impl/IncidMatrixDir.java:326-346 | on a valid graph the sort fails exactly on a cyclic graph, with Unsupported; otherwise it lists every vertex once with every edge pointing forward |
| Kahn.TopoOrderAcyclic | src/main/upo.graph.impl/IncidMatrixDir.java:326-327 | conversely, a graph with a topological order has no cycle |
| Kahn.SampleArcs | src/test/java/IncidMatrixDirTest.java:31-48 | the test's sample matrix is valid and has exactly the edges (0,1), (0,2), (1,2), (2,3), (0,3) |
| Kahn.SampleOrderUnique | src/test/java/IncidMatrixDirTest.java:243-251 | 0, 1, 2, 3 is the sample's only topological order |
| Kahn.SampleAcyclic | src/test/java/IncidMatrixDirTest.java:31-48 | the sample has no cycle |
| Kahn.SampleSort | src/test/java/IncidMatrixDirTest.java:243-251 | the sort of the sample yields 0, 1, 2, 3, as the test expects |
| Traversal.InitGraph | src/main/upo.graph.impl/IncidMatrixDir.java:189-193 | every vertex WHITE, no parent and no times |
| Traversal.VisitDFS | src/main/upo.graph.impl/IncidMatrixDir.java:267-280 | from a WHITE vertex with no BLACK-to-WHITE edge: the visit blackens exactly the WHITE vertices reachable from v, gives each nested discovery and finishing times and a parent joined to it by an edge, and keeps earlier colours |
| Traversal.VisitSuccessors | src/main/upo.graph.impl/IncidMatrixDir.java:271-276 | the successor loop visits every WHITE successor in turn and keeps the loop invariant |
| Traversal.Pick | src/main/upo.graph.impl/IncidMatrixDir.java:271-276 | the next element of a HashSet iteration is a member of the set |
| Traversal.DfsTree | src/main/upo.graph.impl/IncidMatrixDir.java:258-265 | IllegalArgument exactly for a root outside the vertices; otherwise BLACK exactly on the vertices reachable from the root, root discovered at time 1, parents exactly on the other reached vertices |
| Traversal.NextNonBlack | src/main/upo.graph.impl/IncidMatrixDir.java:296-303 | -1 exactly when every vertex is BLACK; otherwise the lowest vertex not BLACK |
| Traversal.CompleteForest | src/main/upo.graph.impl/IncidMatrixDir.java:306-323 | visiting from each lowest non-BLACK vertex blackens every vertex and keeps earlier colours and discovery times |
| Traversal.DfsForest | src/main/upo.graph.impl/IncidMatrixDir.java:283-294 | IllegalArgument exactly for a bad root; otherwise every vertex BLACK with ordered times and edge parents, the root discovered first |
| Traversal.VisitRoot | src/main/upo.graph.impl/IncidMatrixDir.java:313-315 | one given root: visitDFS from it when still WHITE; every root so far BLACK, the first one discovered at time 1 |
| Traversal.DfsForestFrom | src/main/upo.graph.impl/IncidMatrixDir.java:306-323 | IllegalArgument exactly when some given root is not a vertex; otherwise a complete forest with the first root discovered first |
| Traversal.EnqueueSuccessors | src/main/upo.graph.impl/IncidMatrixDir.java:245-251 | each WHITE successor of the head turns GRAY, gets the head as its parent and is enqueued once; afterwards the head has no WHITE successor |
| Traversal.VisitBFS | src/main/upo.graph.impl/IncidMatrixDir.java:240-255 | from a fresh colouring: BLACK exactly on the vertices reachable from the root, each enqueued once, root first |
| Traversal.BfsTree | src/main/upo.graph.impl/IncidMatrixDir.java:231-238 | IllegalArgument exactly for a root outside the vertices; otherwise the breadth-first tree above |
| Traversal.CycleFromStack | src/main/upo.graph.impl/IncidMatrixDir.java:209-223 | an edge from the top of the GRAY stack back into it closes a cycle |
| Traversal.VisitCyclic | src/main/upo.graph.impl/IncidMatrixDir.java:209-223 | a reported cycle is a real cycle; a visit that reports none blackens its reachable WHITE vertices with finishing ranks that fall along every edge |
| Traversal.IsCyclic | src/main/upo.graph.impl/IncidMatrixDir.java:196-207 | true exactly when the graph has a cycle (both directions) |
| Traversal.NormalDFS | src/main/upo.graph.impl/IncidMatrixDir.java:404-413 | the visit appends each newly blackened vertex to the finish list once, v last; it keeps no BLACK-to-WHITE edge, keeps "a vertex whose whole class of mutual reachability is BLACK reaches only BLACK vertices", and keeps the finish-order invariant of Ahead |
| Traversal.FinishKeeps | src/main/upo.graph.impl/IncidMatrixDir.java:411-412 | blackening v and appending it, once every GRAY vertex reaches v and no edge leads from BLACK to WHITE, keeps both first-pass invariants |
| Traversal.SealPath | src/main/upo.graph.impl/IncidMatrixDir.java:404-413 | when v and its whole class are BLACK and every GRAY vertex reaches v, every walk out of v meets only BLACK vertices |
| Traversal.DfsComponent | src/main/upo.graph.impl/IncidMatrixDir.java:437-446 | the component grows by exactly the newly blackened vertices, all reachable from v; no BLACK-to-WHITE edge appears |
| Traversal.FinishOrder | src/main/upo.graph.impl/IncidMatrixDir.java:380-387 | the first pass lists every vertex exactly once, and whenever x reaches y but y does not reach x, some vertex mutually reachable with x is listed after y |
| Traversal.Reversed | src/main/upo.graph.impl/IncidMatrixDir.java:392 | Collections.reverse: position k holds what was at the mirrored position, same members |
| Traversal.RootReachedBack | src/main/upo.graph.impl/IncidMatrixDir.java:392-396 | Kosaraju's argument: when the reversed list reaches a WHITE vertex with every earlier entry BLACK, each vertex its visit of the transpose reaches reaches it back |
| Traversal.ClassesStep | src/main/upo.graph.impl/IncidMatrixDir.java:393-398 | the component one visit of the transpose collects holds, with any member, exactly the vertices mutually reachable with it in the original graph |
| Traversal.CollectFrom | src/main/upo.graph.impl/IncidMatrixDir.java:393-399 | one step of the second pass keeps the BLACK vertices split into the components found so far, each a class of mutual reachability |
| Traversal.Components | src/main/upo.graph.impl/IncidMatrixDir.java:389-399 | on the transpose, with the list of the first pass: nonempty disjoint components covering every vertex, each holding with any member exactly the vertices mutually reachable with it in the original graph |
| Traversal.CyclicSampleClass | src/test/java/IncidMatrixDirTest.java:12-29 | in the cyclic sample 0, 1 and 2 are mutually reachable and 3 only with itself |
| Traversal.CyclicSampleComponents | src/test/java/IncidMatrixDirTest.java:255-262 | on the cyclic sample the only partition into classes of mutual reachability is {{0, 1, 2}, {3}}, the test's expectation |
| Plain.IncidMatrixDir.constructor | src/main/upo.graph.impl/IncidMatrixDir.java:13-17 | an empty, valid matrix |
| Plain.IncidMatrixDir.AddVertex | src/main/upo.graph.impl/IncidMatrixDir.java:20-29 | a NONE row is appended and the old count is returned; consistency, validity and the edge set are kept |
| Plain.IncidMatrixDir.GetVertices | src/main/upo.graph.impl/IncidMatrixDir.java:32-38 | exactly 0 .. numberOfVertices - 1 |
| Plain.IncidMatrixDir.ContainsVertex | src/main/upo.graph.impl/IncidMatrixDir.java:66-68 | true exactly when i < numberOfVertices (so also for every negative i) |
| Plain.IncidMatrixDir.RemoveVertex | src/main/upo.graph.impl/IncidMatrixDir.java:71-75 | NoSuchElement exactly when numberOfVertices <= i; otherwise no row goes and only the count drops, leaving the arcs between the remaining vertices |
| Plain.IncidMatrixDir.AddEdge | src/main/upo.graph.impl/IncidMatrixDir.java:78-103 | IllegalArgument exactly for an end outside the vertices; an existing edge changes nothing; otherwise a column is appended and the edge set gains (s, t) |
| Plain.IncidMatrixDir.ContainsEdge | src/main/upo.graph.impl/IncidMatrixDir.java:106-117 | IllegalArgument exactly for a bad end; otherwise true exactly for an arc |
| Plain.IncidMatrixDir.RemoveEdge | src/main/upo.graph.impl/IncidMatrixDir.java:120-143 | IllegalArgument exactly when an end is too large; IndexOutOfBounds exactly when the scan reaches a negative row; success exactly for an arc, dropping its column from every row and just (s, t) from the edge set |
| Plain.IncidMatrixDir.GetAdjacent | src/main/upo.graph.impl/IncidMatrixDir.java:146-163 | NoSuchElement exactly for a non-vertex; otherwise exactly the heads of v's arcs |
| Plain.IncidMatrixDir.IsAdjacent | src/main/upo.graph.impl/IncidMatrixDir.java:166-177 | IllegalArgument exactly for a bad end; otherwise true exactly for an arc u to v |
| Plain.IncidMatrixDir.GetEdges | src/main/upo.graph.impl/IncidMatrixDir.java:41-63 | exactly the arcs of the graph |
| Plain.IncidMatrixDir.Size | src/main/upo.graph.impl/IncidMatrixDir.java:180-182 | the vertex count, which is the row count of a valid matrix |
| Plain.IncidMatrixDir.IsDirected | src/main/upo.graph.impl/IncidMatrixDir.java:185-187 | always true |
| Plain.IncidMatrixDir.IsCyclic | src/main/upo.graph.impl/IncidMatrixDir.java:196-207 | true exactly when the graph has a cycle |
| Plain.IncidMatrixDir.IsDAG | src/main/upo.graph.impl/IncidMatrixDir.java:226-228 | true exactly when the graph has no cycle |
| Plain.IncidMatrixDir.GetBFSTree | src/main/upo.graph.impl/IncidMatrixDir.java:231-255 | as Traversal.BfsTree on the current graph |
| Plain.IncidMatrixDir.GetDFSTree | src/main/upo.graph.impl/IncidMatrixDir.java:258-280 | as Traversal.DfsTree on the current graph |
| Plain.IncidMatrixDir.GetDFSTOTForest | src/main/upo.graph.impl/IncidMatrixDir.java:283-303 | as Traversal.DfsForest on the current graph |
| Plain.IncidMatrixDir.GetDFSTOTForestRoots | src/main/upo.graph.impl/IncidMatrixDir.java:306-323 | as Traversal.DfsForestFrom on the current graph |
| Plain.IncidMatrixDir.TopologicalSort | src/main/upo.graph.impl/IncidMatrixDir.java:326-375 | Kahn's rounds over all rows of the copy; on a valid graph Unsupported exactly for a cyclic graph, otherwise a topological order |
| Plain.IncidMatrixDir.GetTranspose | src/main/upo.graph.impl/IncidMatrixDir.java:415-435 | a fresh valid graph with as many vertices (none for a negative count) whose arcs are exactly the reversed arcs |
| Plain.IncidMatrixDir.AddFlippedEdges | src/main/upo.graph.impl/IncidMatrixDir.java:420-433 | the edge loop turns an empty graph into the transpose |
| Plain.IncidMatrixDir.AddFlippedColumn | src/main/upo.graph.impl/IncidMatrixDir.java:421-432 | one column of the loop adds its edge turned around |
| Plain.IncidMatrixDir.StronglyConnectedComponents | src/main/upo.graph.impl/IncidMatrixDir.java:378-402 | nonempty disjoint components covering the vertices; each holds, with any member, exactly the vertices mutually reachable with it |
| Plain.IncidMatrixDir.ConnectedComponents | src/main/upo.graph.impl/IncidMatrixDir.java:449-451 | the empty set |
| Weighted.WeightOf | src/main/upo.graph.impl/IncidMatrixDirWeight.java:19-32 | IllegalArgument exactly for a bad end, NoSuchElement exactly for a missing arc, a weight exactly for an arc |
| Weighted.ReweighedDirections | src/main/upo.graph.impl/IncidMatrixDirWeight.java:43-46 | setting a weight leaves every direction, hence the graph, unchanged |
| Weighted.SetThenGet | src/main/upo.graph.impl/IncidMatrixDirWeight.java:35-51 | after setting the weight of an arc, reading it gives the new weight |
| Weighted.SetKeepsOthers | src/main/upo.graph.impl/IncidMatrixDirWeight.java:35-51 | setting one arc's weight leaves every other arc's weight unchanged |
| Weighted.SetTwice | src/main/upo.graph.impl/IncidMatrixDirWeight.java:35-51 | the second of two weight settings wins |
| Weighted.PushNodeColumn | src/main/upo.graph.impl/IncidMatrixDirWeight.java:134-146 | appending a node column corresponds to adding the column of (s, t) in the marker view |
| Weighted.AddedEdgeWeight | src/main/upo.graph.impl/IncidMatrixDirWeight.java:134-146 | a newly added edge has weight INFINITY |
| Weighted.AddedColumn | src/main/upo.graph.impl/IncidMatrixDirWeight.java:118-147 | appending the node column keeps validity, adds (s, t) to the edge set and gives it weight INFINITY |
| Weighted.AppendNodeColumn | src/main/upo.graph.impl/IncidMatrixDirWeight.java:134-144 | the loop appends a fresh node to every row: SOURCE, TARGET or NONE |
| Weighted.ResetColumn | src/main/upo.graph.impl/IncidMatrixDirWeight.java:419-422 | the inner loop of removeOutcomingEdge: for a column v sources, every row below the limit gets a fresh NONE node with weight INFINITY there, and nothing else changes |
| Weighted.ClearedNodesView | src/main/upo.graph.impl/IncidMatrixDirWeight.java:416-425 | clearing the node copy, read through directions, is Kahn.Cleared of the graph |
| Weighted.RemoveOutgoingNodes | src/main/upo.graph.impl/IncidMatrixDirWeight.java:416-425 | the loops reset to NONE and INFINITY every node, in the rows below the limit, of a column v sources |
| Weighted.NodesRound | src/main/upo.graph.impl/IncidMatrixDirWeight.java:386-392 | one round on the node copy equals one round of Kahn.Rounds on the marker view |
| Weighted.NodesRoundStep | src/main/upo.graph.impl/IncidMatrixDirWeight.java:386-392 | one round of the loop either fails with Unsupported or advances the rounds by one |
| Weighted.SortRoundsNodes | src/main/upo.graph.impl/IncidMatrixDirWeight.java:369-414 | the rounds over the deep copy compute Kahn.Rounds with limit numberOfVertices |
| Weighted.IncidMatrixDirWeight.constructor | src/main/upo.graph.impl/IncidMatrixDirWeight.java:12-16 | an empty, valid matrix |
| Weighted.IncidMatrixDirWeight.GetEdgeWeight | src/main/upo.graph.impl/IncidMatrixDirWeight.java:19-32 | the result WeightOf describes |
| Weighted.IncidMatrixDirWeight.SetEdgeWeight | src/main/upo.graph.impl/IncidMatrixDirWeight.java:35-51 | IllegalArgument or NoSuchElement exactly as WeightOf; on success only the arc's two nodes are reweighed, the graph is unchanged and the arc reads back the weight |
| Weighted.IncidMatrixDirWeight.AddVertex | src/main/upo.graph.impl/IncidMatrixDirWeight.java:54-65 | a row of empty nodes is appended; consistency, validity and the edge set are kept |
| Weighted.IncidMatrixDirWeight.GetVertices | src/main/upo.graph.impl/IncidMatrixDirWeight.java:68-76 | exactly 0 .. numberOfVertices - 1 |
| Weighted.IncidMatrixDirWeight.ContainsVertex | src/main/upo.graph.impl/IncidMatrixDirWeight.java:105-107 | true exactly when i < numberOfVertices |
| Weighted.IncidMatrixDirWeight.RemoveVertex | src/main/upo.graph.impl/IncidMatrixDirWeight.java:110-115 | NoSuchElement exactly when numberOfVertices < i; otherwise only the count drops |
| Weighted.IncidMatrixDirWeight.AddEdge | src/main/upo.graph.impl/IncidMatrixDirWeight.java:118-147 | IllegalArgument exactly for a bad end; an existing edge changes nothing; otherwise a node column is appended, the edge set gains (s, t) and its weight is INFINITY |
| Weighted.IncidMatrixDirWeight.ContainsEdge | src/main/upo.graph.impl/IncidMatrixDirWeight.java:150-167 | IllegalArgument exactly for a bad end; otherwise true exactly for an arc |
| Weighted.IncidMatrixDirWeight.RemoveEdge | src/main/upo.graph.impl/IncidMatrixDirWeight.java:170-197 | IllegalArgument exactly for a bad end (negatives included), NoSuchElement exactly for a missing arc; on success the column is dropped from the vertex rows and just (s, t) leaves the edge set |
| Weighted.IncidMatrixDirWeight.GetAdjacent | src/main/upo.graph.impl/IncidMatrixDirWeight.java:200-217 | NoSuchElement exactly for a non-vertex; otherwise exactly the heads of v's arcs |
| Weighted.IncidMatrixDirWeight.IsAdjacent | src/main/upo.graph.impl/IncidMatrixDirWeight.java:220-231 | IllegalArgument exactly for a bad end; otherwise true exactly for an arc |
| Weighted.IncidMatrixDirWeight.GetEdges | src/main/upo.graph.impl/IncidMatrixDirWeight.java:79-102 | exactly the arcs of the graph |
| Weighted.IncidMatrixDirWeight.Size | src/main/upo.graph.impl/IncidMatrixDirWeight.java:234-236 | the vertex count |
| Weighted.IncidMatrixDirWeight.IsDirected | src/main/upo.graph.impl/IncidMatrixDirWeight.java:239-241 | always true |
| Weighted.IncidMatrixDirWeight.IsCyclic | src/main/upo.graph.impl/IncidMatrixDirWeight.java:244-270 | true exactly when the graph has a cycle |
| Weighted.IncidMatrixDirWeight.IsDAG | src/main/upo.graph.impl/IncidMatrixDirWeight.java:273-275 | true exactly when the graph has no cycle |
| Weighted.IncidMatrixDirWeight.GetBFSTree | src/main/upo.graph.impl/IncidMatrixDirWeight.java:278-301 | as Traversal.BfsTree |
| Weighted.IncidMatrixDirWeight.GetDFSTree | src/main/upo.graph.impl/IncidMatrixDirWeight.java:304-325 | as Traversal.DfsTree |
| Weighted.IncidMatrixDirWeight.GetDFSTOTForest | src/main/upo.graph.impl/IncidMatrixDirWeight.java:328-347 | as Traversal.DfsForest |
| Weighted.IncidMatrixDirWeight.GetDFSTOTForestRoots | src/main/upo.graph.impl/IncidMatrixDirWeight.java:350-366 | as Traversal.DfsForestFrom |
| Weighted.IncidMatrixDirWeight.TopologicalSort | src/main/upo.graph.impl/IncidMatrixDirWeight.java:369-425 | Kahn's rounds on the deep copy with limit numberOfVertices; on a valid graph Unsupported exactly for a cyclic graph, otherwise a topological order |
| Weighted.IncidMatrixDirWeight.GetTranspose | src/main/upo.graph.impl/IncidMatrixDirWeight.java:463-483 | a fresh valid graph whose arcs are exactly the reversed arcs |
| Weighted.IncidMatrixDirWeight.AddFlippedEdges | src/main/upo.graph.impl/IncidMatrixDirWeight.java:468-481 | the edge loop turns an empty graph into the transpose |
| Weighted.IncidMatrixDirWeight.AddFlippedColumn | src/main/upo.graph.impl/IncidMatrixDirWeight.java:469-480 | one column adds its edge turned around |
| Weighted.IncidMatrixDirWeight.StronglyConnectedComponents | src/main/upo.graph.impl/IncidMatrixDirWeight.java:428-494 | nonempty disjoint components covering the vertices; each holds, with any member, exactly the vertices mutually reachable with it |
| Weighted.IncidMatrixDirWeight.ConnectedComponents | src/main/upo.graph.impl/IncidMatrixDirWeight.java:497-499 | always UnsupportedOperation |
| Checkpoint.DropKeepsCoded | Davide-Castellani-CP1/src/main/upo.graph.impl/IncidMatrixDir.java:138-140 | dropping a column keeps every cell in -1..1 |
| Checkpoint.PickFrom | Davide-Castellani-CP1/src/main/upo.graph.impl/IncidMatrixDir.java:364-380 | the first row at or after j that is not picked and holds no -1 (incoming edge) and no -2 (picked mark) among its first numberOfEdge cells, or -1 |
| Checkpoint.PickVertex | Davide-Castellani-CP1/src/main/upo.graph.impl/IncidMatrixDir.java:364-380 | the loop returns that row |
| Checkpoint.Zeroed | Davide-Castellani-CP1/src/main/upo.graph.impl/IncidMatrixDir.java:393-399 | a row with the -1 cells of the given columns set to 0 |
| Checkpoint.Marked | Davide-Castellani-CP1/src/main/upo.graph.impl/IncidMatrixDir.java:382-404 | the copy after one removal: v's row all -2, and the cells of v's outgoing columns zeroed |
| Checkpoint.RemoveOutgoingCodes | Davide-Castellani-CP1/src/main/upo.graph.impl/IncidMatrixDir.java:382-404 | the loops produce the marked copy |
| Checkpoint.ZeroColumn | Davide-Castellani-CP1/src/main/upo.graph.impl/IncidMatrixDir.java:393-399 | one column of the loop is zeroed in every row |
| Checkpoint.MarkRow | Davide-Castellani-CP1/src/main/upo.graph.impl/IncidMatrixDir.java:401-403 | v's row becomes all -2 |
| Checkpoint.MarkSortRounds | Davide-Castellani-CP1/src/main/upo.graph.impl/IncidMatrixDir.java:355-359 | the round loop as written, which keeps no visited set and relies on the -2 marks |
| Checkpoint.FixedSortRounds | Davide-Castellani-CP1/src/main/upo.graph.impl/IncidMatrixDir.java:355-359 | the corrected round loop, which skips the rows already picked |
| Checkpoint.PickAgrees | Davide-Castellani-CP1/src/main/upo.graph.impl/IncidMatrixDir.java:364-380 | on the coded copy the pick agrees with Kahn's free-vertex pick (without a visited set once there is an edge) |
| Checkpoint.MarkRoundsSucceed | Davide-Castellani-CP1/src/main/upo.graph.impl/IncidMatrixDir.java:345-362 | on an acyclic graph the corrected rounds produce a topological order, and with at least one column they agree with the rounds as written |
| Checkpoint.FixedSortCorrect | Davide-Castellani-CP1/src/main/upo.graph.impl/IncidMatrixDir.java:345-362 | the corrected sort fails exactly on a cyclic graph, with Unsupported, and otherwise gives a topological order |
| Checkpoint.MarkSortCorrect | Davide-Castellani-CP1/src/main/upo.graph.impl/IncidMatrixDir.java:345-362 | with at least one column the sort as written equals the corrected one, hence is correct |
| Checkpoint.EdgelessSortRepeats | Davide-Castellani-CP1/src/main/upo.graph.impl/IncidMatrixDir.java:345-380 | on two vertices and no edges the sort as written returns [0, 0], which is no topological order; the corrected one returns [0, 1] |
| Checkpoint.SampleSortCoded | Davide-Castellani-CP1/src/test/java/IncidMatrixDirTest.java:245-253 | the test's sample (loadDataGraph, lines 32-49) in the 1/-1 coding sorts, with the rounds as written, to 0, 1, 2, 3 |
| Checkpoint.OneEdgeReversed | Davide-Castellani-CP1/src/main/upo.graph.impl/IncidMatrixDir.java:43-65 | with the single edge (0, 1), getEdges as written reports (1, 0) |
| Checkpoint.AddedCodeColumn | Davide-Castellani-CP1/src/main/upo.graph.impl/IncidMatrixDir.java:81-104 | appending a 1/-1/0 column keeps the cells coded and validity, and adds exactly (s, t) |
| Checkpoint.IncidMatrixDir.constructor | Davide-Castellani-CP1/src/main/upo.graph.impl/IncidMatrixDir.java:13-17 | an empty, valid matrix |
| Checkpoint.IncidMatrixDir.AddVertex | Davide-Castellani-CP1/src/main/upo.graph.impl/IncidMatrixDir.java:20-29 | a row of zeros is appended; the cells stay coded; consistency, validity and edges are kept |
| Checkpoint.IncidMatrixDir.GetVertices | Davide-Castellani-CP1/src/main/upo.graph.impl/IncidMatrixDir.java:32-40 | exactly 0 .. numberOfVertices - 1 |
| Checkpoint.IncidMatrixDir.GetEdges | Davide-Castellani-CP1/src/main/upo.graph.impl/IncidMatrixDir.java:43-65 | as written: every arc turned around |
| Checkpoint.IncidMatrixDir.GetEdgesFixed | Davide-Castellani-CP1/src/main/upo.graph.impl/IncidMatrixDir.java:43-65 | corrected: exactly the arcs |
| Checkpoint.IncidMatrixDir.ContainsVertex | Davide-Castellani-CP1/src/main/upo.graph.impl/IncidMatrixDir.java:68-70 | true exactly when i <= numberOfVertices, so one past the last vertex too |
| Checkpoint.IncidMatrixDir.RemoveVertex | Davide-Castellani-CP1/src/main/upo.graph.impl/IncidMatrixDir.java:73-78 | NoSuchElement exactly when numberOfVertices < i; otherwise only the count drops |
| Checkpoint.IncidMatrixDir.AddEdge | Davide-Castellani-CP1/src/main/upo.graph.impl/IncidMatrixDir.java:81-104 | IllegalArgument exactly for a bad end; an existing edge changes nothing; otherwise a 1/-1 column is appended and (s, t) joins the edge set |
| Checkpoint.IncidMatrixDir.ContainsEdge | Davide-Castellani-CP1/src/main/upo.graph.impl/IncidMatrixDir.java:107-117 | IllegalArgument exactly for a bad end; otherwise true exactly for an arc |
| Checkpoint.IncidMatrixDir.RemoveEdge | Davide-Castellani-CP1/src/main/upo.graph.impl/IncidMatrixDir.java:120-143 | IllegalArgument exactly when an end is too large, IndexOutOfBounds exactly when the scan reaches a negative row; success exactly for an arc, dropping its column from every row and just (s, t) from the edge set |
| Checkpoint.IncidMatrixDir.GetAdjacent | Davide-Castellani-CP1/src/main/upo.graph.impl/IncidMatrixDir.java:146-163 | NoSuchElement exactly for a non-vertex; otherwise exactly the heads of v's arcs |
| Checkpoint.IncidMatrixDir.IsAdjacent | Davide-Castellani-CP1/src/main/upo.graph.impl/IncidMatrixDir.java:166-176 | IllegalArgument exactly for a bad end; otherwise true exactly for an arc |
| Checkpoint.IncidMatrixDir.Size | Davide-Castellani-CP1/src/main/upo.graph.impl/IncidMatrixDir.java:179-181 | the vertex count |
| Checkpoint.IncidMatrixDir.IsDirected | Davide-Castellani-CP1/src/main/upo.graph.impl/IncidMatrixDir.java:184-186 | always true |
| Checkpoint.IncidMatrixDir.IsCyclic | Davide-Castellani-CP1/src/main/upo.graph.impl/IncidMatrixDir.java:188-227 | true exactly when the graph has a cycle |
| Checkpoint.IncidMatrixDir.IsDAG | Davide-Castellani-CP1/src/main/upo.graph.impl/IncidMatrixDir.java:230-232 | as written: true exactly when the graph HAS a cycle |
| Checkpoint.IncidMatrixDir.GetBFSTree | Davide-Castellani-CP1/src/main/upo.graph.impl/IncidMatrixDir.java:235-262 | as Traversal.BfsTree |
| Checkpoint.IncidMatrixDir.GetDFSTree | Davide-Castellani-CP1/src/main/upo.graph.impl/IncidMatrixDir.java:265-290 | as Traversal.DfsTree |
| Checkpoint.IncidMatrixDir.GetDFSTOTForest | Davide-Castellani-CP1/src/main/upo.graph.impl/IncidMatrixDir.java:293-318 | as Traversal.DfsForest |
| Checkpoint.IncidMatrixDir.GetDFSTOTForestRoots | Davide-Castellani-CP1/src/main/upo.graph.impl/IncidMatrixDir.java:321-342 | as Traversal.DfsForestFrom |
| Checkpoint.IncidMatrixDir.TopologicalSort | Davide-Castellani-CP1/src/main/upo.graph.impl/IncidMatrixDir.java:345-404 | the rounds as written; on a valid coded graph with at least one edge column: Unsupported exactly for a cyclic graph, otherwise a topological order |
| Checkpoint.IncidMatrixDir.TopologicalSortFixed | Davide-Castellani-CP1/src/main/upo.graph.impl/IncidMatrixDir.java:345-404 | the corrected rounds, correct on every valid coded graph |
| Checkpoint.IncidMatrixDir.StronglyConnectedComponents | Davide-Castellani-CP1/src/main/upo.graph.impl/IncidMatrixDir.java:407-409 | the empty set |
| Checkpoint.IncidMatrixDir.ConnectedComponents | Davide-Castellani-CP1/src/main/upo.graph.impl/IncidMatrixDir.java:412-414 | the empty set |

## Left out

- Iteration order of `HashSet`: each visit takes the successors of a vertex in *some* order
  (`Traversal.Pick`). The contracts hold for every order, so no particular order is modelled.
- `Double` arithmetic: weights are only stored and copied, so `Weight` is `Infinity` or an
  uninterpreted `Finite(real)`. `Node.INFINITY` is the constant `Infinity`.
- `removeOutcomingEdge` in the weighted class calls `putWeight`, which `Node` does not
  declare. It is modelled as `pudWeight(INFINITY)`, the evident intent.
- `Edge`, `VisitResult`, `Graph` and the other classes of `upo.graph.base` are not part of this
  model. An `Edge` is a pair of ints, and a `VisitResult` is the `Traversal.Visit` value
  (colour, parent, start and end maps). Treating a missing colour as `WHITE` is an
  assumption about it.
- `getRoots`, a method of `VisitResult` in `upo.graph.base`, is not modelled.
- The five shortest-path and minimum-spanning-tree stubs at the end of the weighted class
  (`src/main/upo.graph.impl/IncidMatrixDirWeight.java:501-529`) are not modelled; each one
  returns `null`.
- `Davide-Castellani-CP1/src/main/java/IncidMatrixDir.java` is an unfinished skeleton of the
  same class and is not modelled.
- Recursion depth: a deep visit overflowing the Java stack is not modelled.
- Aliasing of `Node` objects: the model treats the weighted matrix as a matrix of node
  *values*. No two cells share a node in the source; the deep copy of the topological
  sort and `new Node()` per cell ensure that.
- Plain.IncidMatrixDir.AddEdge, Weighted.IncidMatrixDirWeight.AddEdge, Checkpoint.IncidMatrixDir.AddEdge
  and the other methods that scan rows require `Consistent`: every row, the rows past
  `numberOfVertices` included, as long as the column count. A matrix with rows of different
  lengths is not modelled for them. The source reaches one this way:
  `removeVertex` lowers the count but keeps the row. `addEdge` then appends its column only
  to the rows below the count (`src/main/upo.graph.impl/IncidMatrixDir.java:92-100`,
  `Davide-Castellani-CP1/src/main/upo.graph.impl/IncidMatrixDir.java:93-101`,
  `src/main/upo.graph.impl/IncidMatrixDirWeight.java:134-144`), and the weighted `removeEdge`
  removes its column only from those rows (`IncidMatrixDirWeight.java:191-193`). The stale row
  is left shorter or longer, and a later `addVertex` makes its index a vertex again. The
  methods concerned are:
  - in Plain.IncidMatrixDir: AddEdge, ContainsEdge, RemoveEdge, GetAdjacent, IsAdjacent,
    GetEdges, IsCyclic, IsDAG, GetBFSTree, GetDFSTree, GetDFSTOTForest, GetDFSTOTForestRoots,
    TopologicalSort, GetTranspose, AddFlippedEdges, AddFlippedColumn and StronglyConnectedComponents;
  - in Weighted.IncidMatrixDirWeight: the same, plus GetEdgeWeight and SetEdgeWeight;
  - in Checkpoint.IncidMatrixDir: AddEdge, ContainsEdge, RemoveEdge, GetAdjacent, IsAdjacent,
    GetEdges, GetEdgesFixed, IsCyclic, IsDAG, GetBFSTree, GetDFSTree, GetDFSTOTForest,
    GetDFSTOTForestRoots, TopologicalSort and TopologicalSortFixed.
  RemoveVertex and AddVertex need no consistency, and AddVertex keeps it.
- Plain.IncidMatrixDir.TopologicalSort returns a sequence. The source returns an
  `Integer[]` filled in place; the rounds write every slot before returning, so no `null`
  entry is modelled.
- Weighted.IncidMatrixDirWeight.GetTranspose states the transposed edges but not the weights of
  the new graph, which `addEdge` sets to `INFINITY`; the source's weights are not carried over.
- Checkpoint.IncidMatrixDir.TopologicalSort is proved correct only for graphs with at least one
  edge column; the edgeless case is the finding below.

## Findings

| source | as written | input that shows it | evidently intended | confidence | as-written member | corrected member |
|---|---|---|---|---|---|---|
| Davide-Castellani-CP1/src/main/upo.graph.impl/IncidMatrixDir.java:345-380 | a picked row is excluded only by overwriting it with -2 across its columns, so with no columns nothing marks it | two vertices and no edges: the sort returns [0, 0] | each vertex listed once: [0, 1] | not executed | Checkpoint.EdgelessSortRepeats | Checkpoint.FixedSortCorrect |
| Davide-Castellani-CP1/src/main/upo.graph.impl/IncidMatrixDir.java:43-65 | getEdges takes the row holding -1 as the source, but addEdge writes 1 at the source | the single edge added by addEdge(0, 1): getEdges reports (1, 0) | the pair (0, 1) | not executed | Checkpoint.OneEdgeReversed | Checkpoint.IncidMatrixDir.GetEdgesFixed |

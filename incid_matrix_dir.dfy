/** IncidMatrixDir: a directed graph kept as an incidence matrix of markers, one row
    per vertex and one column per edge, with the two counters beside it. */
module Plain {
  import opened Incidences
  import opened Errors
  import opened Tables
  import opened Graphs
  import opened Scans
  import opened Traversal
  import opened Kahn

  class IncidMatrixDir {
    var numberOfVertices: int
    var numberOfEdge: nat
    var matrix: seq<seq<Incidence>>

    /** The matrix and the two counters as one value. */
    function View(): Mat
      reads this
    {
      Mat(matrix, numberOfVertices, numberOfEdge)
    }

    /** An empty graph. */
    constructor ()
      ensures View() == Mat([], 0, 0) && Valid(View())
    {
      numberOfVertices := 0;
      numberOfEdge := 0;
      matrix := [];
    }

    /** addVertex: a new row of NONE, one cell per edge; returns the new vertex. */
    method AddVertex() returns (v: int)
      modifies this
      ensures View() == WithRow(old(View())) && v == old(numberOfVertices)
      ensures old(Consistent(View())) ==> Consistent(View())
      ensures old(Valid(View())) ==> Valid(View()) && EdgeSet(View()) == old(EdgeSet(View()))
    {
      ghost var g := View();
      var newVertex: seq<Incidence> := [];
      var i := 0;
      while i < numberOfEdge
        invariant 0 <= i <= numberOfEdge
        invariant |newVertex| == i && forall k :: 0 <= k < i ==> newVertex[k] == NONE
      {
        newVertex := newVertex + [NONE];
        i := i + 1;
      }
      assert newVertex == Filled(numberOfEdge, NONE);
      matrix := matrix + [newVertex];
      numberOfVertices := numberOfVertices + 1;
      if Consistent(g) {
        WithRowConsistent(g);
      }
      if Valid(g) {
        WithRowKeepsEdges(g);
      }
      v := numberOfVertices - 1;
    }

    /** getVertices: the integers 0 .. numberOfVertices-1. */
    method GetVertices() returns (vs: set<int>)
      ensures forall v :: v in vs <==> 0 <= v < numberOfVertices
    {
      vs := {};
      var i := 0;
      while i < numberOfVertices
        invariant 0 <= i && (i <= numberOfVertices || i == 0)
        invariant forall v :: v in vs <==> 0 <= v < i
      {
        vs := vs + {i};
        i := i + 1;
      }
    }

    /** containsVertex: true for every vertex, false at and above the vertex count, and
        true for every negative integer as well. */
    method ContainsVertex(i: int) returns (b: bool)
      ensures 0 <= i ==> (b <==> i in Vertices(numberOfVertices))
      ensures i < 0 ==> b == (i < numberOfVertices)
    {
      b := numberOfVertices > i;
    }

    /** removeVertex: fails at and above the vertex count; otherwise the matrix stays as it
        is (ArrayList.remove of an Integer looks for a row equal to it) and only the count
        drops, so the last vertex, not i, leaves the denoted graph. */
    method RemoveVertex(i: int) returns (o: Outcome)
      modifies this
      ensures o.Fail? <==> old(numberOfVertices) <= i
      ensures o.Fail? ==> o.error == NoSuchElement && View() == old(View())
      ensures o.Pass? ==> matrix == old(matrix) && numberOfEdge == old(numberOfEdge)
      ensures o.Pass? ==> numberOfVertices == old(numberOfVertices) - 1
      ensures o.Pass? && old(Consistent(View())) ==> Consistent(View())
      ensures o.Pass? ==> forall a, b :: Arc(View(), a, b) <==>
        old(Arc(View(), a, b)) && a != old(numberOfVertices) - 1 && b != old(numberOfVertices) - 1
    {
      if numberOfVertices <= i {
        return Fail(NoSuchElement);
      }
      ghost var g := View();
      numberOfVertices := numberOfVertices - 1;
      FewerVertices(g, numberOfVertices);
      return Pass;
    }

    /** addEdge(s, t): IllegalArgument unless both ends are vertices; nothing happens when
        a column already joins them; otherwise a column with SOURCE at s and TARGET at t
        is appended to the first numberOfVertices rows. */
    method AddEdge(s: int, t: int) returns (o: Outcome)
      requires Consistent(View())
      modifies this
      ensures o.Fail? <==> !(0 <= s < old(numberOfVertices) && 0 <= t < old(numberOfVertices))
      ensures o.Fail? ==> o.error == IllegalArgument
      ensures o.Fail? || old(Arc(View(), s, t)) ==> View() == old(View())
      ensures o.Pass? && !old(Arc(View(), s, t)) ==> View() == WithColumn(old(View()), s, t)
      ensures o.Pass? && old(Valid(View())) ==>
        Valid(View()) && EdgeSet(View()) == old(EdgeSet(View())) + (if s != t then {(s, t)} else {})
    {
      if s >= numberOfVertices || t >= numberOfVertices || s < 0 || t < 0 {
        return Fail(IllegalArgument);
      }
      ghost var g := View();
      var found := FindColumn(View(), s, t);
      JoinScanInRange(g, s, t);
      if found.value != -1 {
        return Pass;
      }
      var col := NewColumn(numberOfVertices, s, t, SOURCE, TARGET, NONE);
      var i := 0;
      while i < numberOfVertices
        invariant numberOfVertices == g.nV && numberOfEdge == g.nE
        invariant 0 <= i <= numberOfVertices && |matrix| == |g.rows|
        invariant forall j :: 0 <= j < i ==> matrix[j] == g.rows[j] + [col[j]]
        invariant forall j :: i <= j < |g.rows| ==> matrix[j] == g.rows[j]
      {
        if i == s {
          matrix := matrix[i := matrix[i] + [SOURCE]];
        } else if i == t {
          matrix := matrix[i := matrix[i] + [TARGET]];
        } else {
          matrix := matrix[i := matrix[i] + [NONE]];
        }
        i := i + 1;
      }
      numberOfEdge := numberOfEdge + 1;
      assert matrix == PushColumn(g.rows, col);
      if Valid(g) {
        WithColumnEdges(g, s, t);
      }
      return Pass;
    }

    /** containsEdge(s, t): IllegalArgument unless both ends are vertices, else whether
        (s, t) is an edge. */
    method ContainsEdge(s: int, t: int) returns (r: Result<bool>)
      requires Consistent(View())
      ensures r.Err? <==> !(0 <= s < numberOfVertices && 0 <= t < numberOfVertices)
      ensures r.Err? ==> r.error == IllegalArgument
      ensures r.Ok? ==> (r.value <==> Arc(View(), s, t))
    {
      if s >= numberOfVertices || t >= numberOfVertices || s < 0 || t < 0 {
        return Err(IllegalArgument);
      }
      var found := FindColumn(View(), s, t);
      JoinScanInRange(View(), s, t);
      return Ok(found.value != -1);
    }

    /** removeEdge(s, t): only the upper bounds are checked, so a negative end reaches the
        scan and throws there once the scan reads it; a missing edge is NoSuchElement;
        otherwise its column is deleted from every row, stale rows included. */
    method RemoveEdge(s: int, t: int) returns (o: Outcome)
      requires Consistent(View())
      modifies this
      ensures o == Fail(IllegalArgument) <==> s >= old(numberOfVertices) || t >= old(numberOfVertices)
      ensures o == Fail(IndexOutOfBounds) <==>
        s < old(numberOfVertices) && t < old(numberOfVertices) && JoinScan(old(View()), s, t).Err?
      ensures o.Pass? <==> old(Arc(View(), s, t))
      ensures o.Fail? ==> o.error in {IllegalArgument, IndexOutOfBounds, NoSuchElement} && View() == old(View())
      ensures o.Pass? ==> View() == WithoutColumn(old(View()), |old(matrix)|, ColumnOf(old(View()), s, t))
      ensures o.Pass? ==> Consistent(View()) && EdgeSet(View()) == old(EdgeSet(View())) - {(s, t)}
      ensures o.Pass? && old(Valid(View())) ==> Valid(View())
    {
      if s >= numberOfVertices || t >= numberOfVertices {
        return Fail(IllegalArgument);
      }
      ghost var g := View();
      var found := FindColumn(View(), s, t);
      if found.Err? {
        return Fail(IndexOutOfBounds);
      }
      var edgeIndex := found.value;
      if edgeIndex == -1 {
        assert !Arc(g, s, t);
        return Fail(NoSuchElement);
      }
      assert 0 <= s < |g.rows| && 0 <= t < |g.rows|;
      assert Joins(g, edgeIndex, s, t);
      matrix := RemoveColumn(matrix, |matrix|, edgeIndex);
      numberOfEdge := numberOfEdge - 1;
      WithoutColumnEdges(g, edgeIndex, s, t);
      return Pass;
    }

    /** getAdjacent(v): NoSuchElement unless v is a vertex, else the heads of v's edges. */
    method GetAdjacent(v: int) returns (r: Result<set<int>>)
      requires Consistent(View())
      ensures r.Err? <==> !(0 <= v < numberOfVertices)
      ensures r.Err? ==> r.error == NoSuchElement
      ensures r.Ok? ==> r.value == Succ(View(), v) && forall t :: t in r.value <==> Arc(View(), v, t)
    {
      if v >= numberOfVertices || v < 0 {
        return Err(NoSuchElement);
      }
      var adj := Adjacent(View(), v);
      return Ok(adj);
    }

    /** isAdjacent(u, v): IllegalArgument unless both are vertices, else whether (u, v) is an edge. */
    method IsAdjacent(u: int, v: int) returns (r: Result<bool>)
      requires Consistent(View())
      ensures r.Err? <==> !(0 <= u < numberOfVertices && 0 <= v < numberOfVertices)
      ensures r.Err? ==> r.error == IllegalArgument
      ensures r.Ok? ==> (r.value <==> Arc(View(), u, v))
    {
      if u >= numberOfVertices || v >= numberOfVertices || u < 0 || v < 0 {
        return Err(IllegalArgument);
      }
      var found := FindColumn(View(), u, v);
      JoinScanInRange(View(), u, v);
      return Ok(found.value != -1);
    }

    /** getEdges: one pair per column whose two ends are vertices, i.e. the edge set. */
    method GetEdges() returns (es: set<(int, int)>)
      requires Consistent(View())
      ensures es == EdgeSet(View())
      ensures forall s, t :: (s, t) in es <==> Arc(View(), s, t)
    {
      es := EdgeScan(View());
      forall s, t ensures (s, t) in es <==> Arc(View(), s, t) {
        InEdgeSet(View(), s, t);
      }
    }

    /** size: the vertex count, which on a well-formed graph is the number of rows. */
    method Size() returns (n: int)
      ensures n == numberOfVertices
      ensures Valid(View()) ==> n == |matrix|
    {
      n := numberOfVertices;
    }

    /** isDirected: always. */
    method IsDirected() returns (d: bool)
      ensures d
    {
      d := true;
    }

    /** isCyclic: whether the graph has a cycle. */
    method IsCyclic() returns (cyclic: bool)
      requires Consistent(View())
      ensures cyclic <==> HasCycle(View())
    {
      cyclic := Traversal.IsCyclic(View());
    }

    /** isDAG: directed and not cyclic. */
    method IsDAG() returns (dag: bool)
      requires Consistent(View())
      ensures dag <==> !HasCycle(View())
    {
      var directed := IsDirected();
      var cyclic := IsCyclic();
      dag := directed && !cyclic;
    }

    /** getBFSTree(v): IllegalArgument unless v is a vertex, else the colouring and parents
        of one breadth-first visit from v. */
    method GetBFSTree(v: int) returns (res: Result<Visit>, ghost enqueued: seq<int>)
      requires Consistent(View())
      ensures res.Err? <==> !(0 <= v < numberOfVertices)
      ensures res.Err? ==> res.error == IllegalArgument
      ensures res.Ok? ==> BfsTreeOf(View(), v, res.value, enqueued)
    {
      res, enqueued := BfsTree(View(), v);
    }

    /** getDFSTree(v): IllegalArgument unless v is a vertex, else one depth-first visit from v. */
    method GetDFSTree(v: int) returns (res: Result<Visit>)
      requires Consistent(View())
      ensures res.Err? <==> !(0 <= v < numberOfVertices)
      ensures res.Err? ==> res.error == IllegalArgument
      ensures res.Ok? ==> DfsTreeOf(View(), v, res.value)
    {
      res := DfsTree(View(), v);
    }

    /** getDFSTOTForest(v): the depth-first forest started at v. */
    method GetDFSTOTForest(v: int) returns (res: Result<Visit>)
      requires Consistent(View())
      ensures res.Err? <==> !(0 <= v < numberOfVertices)
      ensures res.Err? ==> res.error == IllegalArgument
      ensures res.Ok? ==> ForestOf(View(), res.value) && v in res.value.start && res.value.start[v] == 1
    {
      res := DfsForest(View(), v);
    }

    /** getDFSTOTForest(roots): the depth-first forest started at the given roots in turn;
        a root outside the vertex range is IllegalArgument. */
    method GetDFSTOTForestRoots(roots: seq<int>) returns (res: Result<Visit>)
      requires Consistent(View())
      ensures res.Err? <==> exists k :: 0 <= k < |roots| && !(0 <= roots[k] < numberOfVertices)
      ensures res.Err? ==> res.error == IllegalArgument
      ensures res.Ok? ==> ForestOf(View(), res.value)
      ensures res.Ok? && |roots| > 0 ==> roots[0] in res.value.start && res.value.start[roots[0]] == 1
    {
      res := DfsForestFrom(View(), roots);
    }

    /** topologicalSort: the rounds of Kahn's method on a copy whose clearing covers every
        row; on a well-formed graph it fails exactly when the graph has a cycle and
        otherwise lists every vertex once, each edge pointing forwards. */
    method TopologicalSort() returns (r: Result<seq<int>>)
      requires Consistent(View())
      ensures r == TopoSpec(View(), |matrix|)
      ensures Valid(View()) ==> (r.Ok? <==> !HasCycle(View()))
      ensures Valid(View()) && r.Err? ==> r.error == Unsupported
      ensures Valid(View()) && r.Ok? ==> TopoOrder(View(), r.value)
    {
      var cyclic := IsCyclic();
      if cyclic {
        return Err(Unsupported);
      }
      if numberOfVertices < 0 {
        return Err(NegativeArraySize);
      }
      r := SortRounds(View(), |matrix|);
      if Valid(View()) {
        TopoSortCorrect(View(), |matrix|);
      }
    }

    /** getTranspose: a new graph with the same vertices and every edge turned around,
        built through addVertex and addEdge. */
    method GetTranspose() returns (t: IncidMatrixDir)
      requires Consistent(View())
      ensures fresh(t) && Valid(t.View())
      ensures t.numberOfVertices == if numberOfVertices < 0 then 0 else numberOfVertices
      ensures Transposed(View(), t.View())
    {
      t := new IncidMatrixDir();
      var i := 0;
      while i < numberOfVertices
        invariant 0 <= i && (i <= numberOfVertices || i == 0)
        invariant fresh(t) && Valid(t.View()) && t.numberOfVertices == i && EdgeSet(t.View()) == {}
      {
        var _ := t.AddVertex();
        i := i + 1;
      }
      AddFlippedEdges(t);
    }

    /** The edge loop of getTranspose: the ends of every column, turned around, added to t. */
    method AddFlippedEdges(t: IncidMatrixDir)
      requires Consistent(View()) && t != this
      requires Valid(t.View()) && EdgeSet(t.View()) == {}
      requires t.numberOfVertices == if numberOfVertices < 0 then 0 else numberOfVertices
      modifies t
      ensures Valid(t.View()) && t.numberOfVertices == old(t.numberOfVertices)
      ensures Transposed(View(), t.View())
    {
      ghost var g := View();
      var k := 0;
      while k < numberOfEdge
        invariant 0 <= k <= numberOfEdge
        invariant Valid(t.View()) && t.numberOfVertices == old(t.numberOfVertices)
        invariant EdgeSet(t.View()) == Flipped(EdgesBelow(g, k))
      {
        AddFlippedColumn(t, k);
        k := k + 1;
      }
      EdgesBelowAll(g);
      FlippedArcs(g, t.View());
    }

    /** One round of the edge loop of getTranspose: column k's ends, when both are
        vertices, become an edge of t from the TARGET row to the SOURCE row. */
    method AddFlippedColumn(t: IncidMatrixDir, k: int)
      requires Consistent(View()) && t != this && 0 <= k < numberOfEdge
      requires Valid(t.View()) && EdgeSet(t.View()) == Flipped(EdgesBelow(View(), k))
      requires t.numberOfVertices == if numberOfVertices < 0 then 0 else numberOfVertices
      modifies t
      ensures Valid(t.View()) && t.numberOfVertices == old(t.numberOfVertices)
      ensures EdgeSet(t.View()) == Flipped(EdgesBelow(View(), k + 1))
    {
      var source, destination := ColumnEnds(View(), k);
      ColumnStep(View(), k, source, destination);
      FlippedStep(View(), k, source, destination);
      if source.Some? && destination.Some? {
        var _ := t.AddEdge(destination.value, source.value);
      }
    }

    /** stronglyConnectedComponents (Kosaraju): the finish list of a first pass, then one
        component per visit of the transposed graph taken in reverse finishing order. The
        components are nonempty, disjoint and cover the vertices, and the component of any
        vertex u holds exactly the vertices mutually reachable with u. */
    method StronglyConnectedComponents() returns (cfc: set<set<int>>)
      requires Consistent(View())
      ensures Partition(cfc, numberOfVertices)
      ensures forall c, u, w :: c in cfc && u in c ==> (w in c <==> MutuallyReachable(View(), u, w))
    {
      var resultDFS := FinishOrder(View());
      var transposeGraph := GetTranspose();
      TransposedBack(View(), transposeGraph.View());
      cfc := Components(View(), transposeGraph.View(), resultDFS);
    }

    /** connectedComponents: not implemented, the empty set. */
    method ConnectedComponents() returns (cc: set<set<int>>)
      ensures cc == {}
    {
      cc := {};
    }
  }
}

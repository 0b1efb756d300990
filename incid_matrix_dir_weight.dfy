/** IncidMatrixDirWeight: the incidence matrix with a Node in every cell, each holding a
    direction marker and a weight; an edge's weight sits in both of its cells. Every
    graph algorithm reads the directions only. */
module Weighted {
  import opened Incidences
  import opened Errors
  import opened Tables
  import opened Graphs
  import opened Scans
  import opened Traversal
  import opened Kahn
  import opened Nodes

  function Dir(n: NodeValue): Incidence
  {
    n.direction
  }

  /** The markers of a matrix of nodes. */
  function Directions(rows: seq<seq<NodeValue>>): (r: seq<seq<Incidence>>)
    ensures |r| == |rows|
    ensures forall j :: 0 <= j < |rows| ==> |r[j]| == |rows[j]|
    ensures forall j, i :: 0 <= j < |rows| && 0 <= i < |rows[j]| ==> r[j][i] == rows[j][i].direction
  {
    MapCells(rows, Dir)
  }

  /** The snapshot of directions and counters every algorithm works on. */
  function DirView(rows: seq<seq<NodeValue>>, nV: int, nE: nat): Mat
  {
    Mat(Directions(rows), nV, nE)
  }

  // ---------------------------------------------------------------- weights

  /** getEdgeWeight(s, t): IllegalArgument unless both ends are vertices, NoSuchElement
      when no column joins them, else the weight in the SOURCE cell of the first one. */
  function WeightOf(rows: seq<seq<NodeValue>>, nV: int, nE: nat, s: int, t: int): (r: Result<Weight>)
    requires Fits(DirView(rows, nV, nE))
    ensures r == Err(IllegalArgument) <==> !(0 <= s < nV && 0 <= t < nV)
    ensures r == Err(NoSuchElement) <==> 0 <= s < nV && 0 <= t < nV && !Arc(DirView(rows, nV, nE), s, t)
    ensures r.Ok? <==> Arc(DirView(rows, nV, nE), s, t)
  {
    if !(0 <= s < nV && 0 <= t < nV) then Err(IllegalArgument)
    else
      var c := ColumnOf(DirView(rows, nV, nE), s, t);
      if c == -1 then Err(NoSuchElement) else Ok(rows[s][c].weight)
  }

  /** setEdgeWeight on column c: makeNode(SOURCE, w) on s's cell and makeNode(TARGET, w) on t's. */
  function Reweighed(rows: seq<seq<NodeValue>>, c: nat, s: nat, t: nat, w: Weight): seq<seq<NodeValue>>
    requires s < |rows| && t < |rows| && c < |rows[s]| && c < |rows[t]|
  {
    SetCell(SetCell(rows, s, c, NodeValue(SOURCE, w)), t, c, NodeValue(TARGET, w))
  }

  /** Setting a weight leaves every direction as it was: the two cells keep their markers. */
  lemma ReweighedDirections(rows: seq<seq<NodeValue>>, c: nat, s: nat, t: nat, w: Weight)
    requires s < |rows| && t < |rows| && c < |rows[s]| && c < |rows[t]|
    requires rows[s][c].direction == SOURCE && rows[t][c].direction == TARGET
    ensures Directions(Reweighed(rows, c, s, t, w)) == Directions(rows)
  {
    var a := Directions(Reweighed(rows, c, s, t, w));
    var b := Directions(rows);
    forall j | 0 <= j < |rows| ensures a[j] == b[j] {
    }
  }

  /** getEdgeWeight after setEdgeWeight(s, t, w) returns w. */
  lemma SetThenGet(rows: seq<seq<NodeValue>>, nV: int, nE: nat, s: int, t: int, w: Weight)
    requires Fits(DirView(rows, nV, nE)) && Arc(DirView(rows, nV, nE), s, t)
    ensures var c := ColumnOf(DirView(rows, nV, nE), s, t);
      0 <= c && WeightOf(Reweighed(rows, c, s, t, w), nV, nE, s, t) == Ok(w)
  {
    var g := DirView(rows, nV, nE);
    var c := ColumnOf(g, s, t);
    assert Joins(g, c, s, t);
    ReweighedDirections(rows, c, s, t, w);
  }

  /** setEdgeWeight(s, t, w) changes no other edge's weight. */
  lemma SetKeepsOthers(rows: seq<seq<NodeValue>>, nV: int, nE: nat, s: int, t: int, w: Weight, s': int, t': int)
    requires Consistent(DirView(rows, nV, nE)) && Arc(DirView(rows, nV, nE), s, t) && (s', t') != (s, t)
    ensures var c := ColumnOf(DirView(rows, nV, nE), s, t);
      0 <= c && WeightOf(Reweighed(rows, c, s, t, w), nV, nE, s', t') == WeightOf(rows, nV, nE, s', t')
  {
    var g := DirView(rows, nV, nE);
    var c := ColumnOf(g, s, t);
    assert Joins(g, c, s, t);
    ReweighedDirections(rows, c, s, t, w);
    var c' := ColumnOf(g, s', t');
    if 0 <= s' < nV && 0 <= t' < nV && c' != -1 {
      assert Joins(g, c', s', t');
      assert c' != c;
    }
  }

  /** A second setEdgeWeight overwrites the first. */
  lemma SetTwice(rows: seq<seq<NodeValue>>, c: nat, s: nat, t: nat, w1: Weight, w2: Weight)
    requires s < |rows| && t < |rows| && c < |rows[s]| && c < |rows[t]|
    ensures Reweighed(Reweighed(rows, c, s, t, w1), c, s, t, w2) == Reweighed(rows, c, s, t, w2)
  {
    var a := Reweighed(Reweighed(rows, c, s, t, w1), c, s, t, w2);
    var b := Reweighed(rows, c, s, t, w2);
    forall j | 0 <= j < |rows| ensures a[j] == b[j] {
    }
  }

  /** The column addEdge appends: fresh nodes, all weighing INFINITY. */
  function NodeColumn(n: nat, s: int, t: int): seq<NodeValue>
  {
    NewColumn(n, s, t, NodeValue(SOURCE, INFINITY), NodeValue(TARGET, INFINITY), EMPTY)
  }

  /** Appending a node column appends its directions. */
  lemma PushNodeColumn(rows: seq<seq<NodeValue>>, nV: int, nE: nat, s: int, t: int)
    requires 0 <= nV <= |rows|
    ensures DirView(PushColumn(rows, NodeColumn(nV, s, t)), nV, nE + 1) == WithColumn(DirView(rows, nV, nE), s, t)
  {
    MapPushColumn(rows, NodeColumn(nV, s, t), Dir);
    MapNewColumn(nV, s, t, NodeValue(SOURCE, INFINITY), NodeValue(TARGET, INFINITY), EMPTY, Dir);
  }

  /** A freshly added edge weighs INFINITY until a weight is set. */
  lemma AddedEdgeWeight(rows: seq<seq<NodeValue>>, nV: int, nE: nat, s: int, t: int)
    requires Valid(DirView(rows, nV, nE)) && 0 <= s < nV && 0 <= t < nV && s != t
    requires !Arc(DirView(rows, nV, nE), s, t)
    ensures WeightOf(PushColumn(rows, NodeColumn(nV, s, t)), nV, nE + 1, s, t) == Ok(INFINITY)
  {
    var g := DirView(rows, nV, nE);
    var rows' := PushColumn(rows, NodeColumn(nV, s, t));
    PushNodeColumn(rows, nV, nE, s, t);
    WithColumnEdges(g, s, t);
    WithColumnCells(g, s, t);
    var h := DirView(rows', nV, nE + 1);
    assert Joins(h, nE, s, t);
    assert forall i :: 0 <= i < nE ==> !Joins(h, i, s, t);
    assert ColumnOf(h, s, t) == nE;
  }

  /** addEdge's new column, for a pair no column joins yet: the view gains that column,
      a well-formed view stays well-formed and gains the edge, which weighs INFINITY. */
  lemma AddedColumn(rows: seq<seq<NodeValue>>, nV: int, nE: nat, s: int, t: int)
    requires Fits(DirView(rows, nV, nE)) && 0 <= s < nV && 0 <= t < nV
    requires forall i :: 0 <= i < nE ==> !Joins(DirView(rows, nV, nE), i, s, t)
    ensures DirView(PushColumn(rows, NodeColumn(nV, s, t)), nV, nE + 1) == WithColumn(DirView(rows, nV, nE), s, t)
    ensures Valid(DirView(rows, nV, nE)) ==>
      Valid(DirView(PushColumn(rows, NodeColumn(nV, s, t)), nV, nE + 1)) &&
      EdgeSet(DirView(PushColumn(rows, NodeColumn(nV, s, t)), nV, nE + 1)) ==
        EdgeSet(DirView(rows, nV, nE)) + (if s != t then {(s, t)} else {})
    ensures Valid(DirView(rows, nV, nE)) && s != t ==>
      WeightOf(PushColumn(rows, NodeColumn(nV, s, t)), nV, nE + 1, s, t) == Ok(INFINITY)
  {
    var g := DirView(rows, nV, nE);
    PushNodeColumn(rows, nV, nE, s, t);
    if Valid(g) {
      WithColumnEdges(g, s, t);
      if s != t {
        AddedEdgeWeight(rows, nV, nE, s, t);
      }
    }
  }

  /** The loop of addEdge: each of the first n rows gains a fresh node, SOURCE at s, TARGET
      at t, NONE elsewhere, all weighing INFINITY. */
  method AppendNodeColumn(rows: seq<seq<NodeValue>>, n: nat, s: int, t: int) returns (r: seq<seq<NodeValue>>)
    requires n <= |rows|
    ensures r == PushColumn(rows, NodeColumn(n, s, t))
  {
    var col := NodeColumn(n, s, t);
    r := rows;
    var i := 0;
    while i < n
      invariant 0 <= i <= n && |r| == |rows|
      invariant forall j :: 0 <= j < i ==> r[j] == rows[j] + [col[j]]
      invariant forall j :: i <= j < |rows| ==> r[j] == rows[j]
    {
      var node := new Node();
      if i == s {
        node.MakeNode(SOURCE, INFINITY);
      } else if i == t {
        node.MakeNode(TARGET, INFINITY);
      } else {
        node.MakeNode(NONE, INFINITY);
      }
      r := r[i := r[i] + [node.Value()]];
      i := i + 1;
    }
    assert r == PushColumn(rows, col);
  }

  // ---------------------------------------------------------------- topologicalSort on nodes

  /** One row of the copy with the cells of the columns below n that `src` sources reset to
      NONE and INFINITY (putDirection, then the weight reset). */
  function ResetUpTo(src: seq<NodeValue>, row: seq<NodeValue>, nE: int, n: int): (r: seq<NodeValue>)
    ensures |r| == |row|
    ensures forall i :: 0 <= i < |row| ==>
      r[i] == (if i < n && i < nE && i < |src| && src[i].direction == SOURCE then EMPTY else row[i])
  {
    seq(|row|, i requires 0 <= i < |row| =>
      if i < n && i < nE && i < |src| && src[i].direction == SOURCE then EMPTY else row[i])
  }

  /** removeOutcomingEdge(v) on the copy of nodes: the rows below limit lose v's columns. */
  function ClearedNodes(rows: seq<seq<NodeValue>>, v: nat, nE: int, limit: int): (r: seq<seq<NodeValue>>)
    requires v < |rows|
    ensures |r| == |rows| && forall j :: 0 <= j < |rows| ==> |r[j]| == |rows[j]|
  {
    seq(|rows|, j requires 0 <= j < |rows| => if j < limit then ResetUpTo(rows[v], rows[j], nE, nE) else rows[j])
  }

  /** Clearing the nodes clears their directions as the marker version does. */
  lemma ClearedNodesView(rows: seq<seq<NodeValue>>, nV: int, nE: nat, v: nat, limit: int)
    requires Fits(DirView(rows, nV, nE)) && v < |rows|
    ensures DirView(ClearedNodes(rows, v, nE, limit), nV, nE) == Cleared(DirView(rows, nV, nE), v, limit)
  {
    var g := DirView(rows, nV, nE);
    var a := Directions(ClearedNodes(rows, v, nE, limit));
    var b := Cleared(g, v, limit).rows;
    forall j | 0 <= j < |rows| ensures a[j] == b[j] {
      forall i | 0 <= i < |rows[j]| ensures a[j][i] == b[j][i] {
        assert Cell(g, v, i) == rows[v][i].direction;
        assert Cell(Cleared(g, v, limit), j, i) == b[j][i];
        assert Cell(g, j, i) == rows[j][i].direction;
      }
    }
  }

  /** The rows below limit of the copy with the columns below n that v sources reset. */
  ghost predicate ResetBelow(copy: seq<seq<NodeValue>>, rows: seq<seq<NodeValue>>, nE: nat, v: nat, limit: int, n: int)
    requires v < |rows|
  {
    |copy| == |rows| && forall m :: 0 <= m < |copy| ==> copy[m] == (if m < limit then ResetUpTo(rows[v], rows[m], nE, n) else rows[m])
  }

  /** The inner loop of removeOutcomingEdge over the rows below limit, for one column i
      that v sources: each cell becomes NONE, then its weight INFINITY. */
  method ResetColumn(copy: seq<seq<NodeValue>>, ghost rows: seq<seq<NodeValue>>, nE: nat, v: nat, limit: int, i: nat)
    returns (copy': seq<seq<NodeValue>>)
    requires v < |rows| && limit <= |rows| && i < nE && forall j :: 0 <= j < |rows| ==> |rows[j]| == nE
    requires rows[v][i].direction == SOURCE && ResetBelow(copy, rows, nE, v, limit, i)
    ensures ResetBelow(copy', rows, nE, v, limit, i + 1)
  {
    copy' := copy;
    var j := 0;
    while j < limit
      invariant 0 <= j && (j <= limit || j == 0) && |copy'| == |rows|
      invariant forall m :: 0 <= m < |copy'| ==>
        copy'[m] == (if m < limit then ResetUpTo(rows[v], rows[m], nE, if m < j then i + 1 else i) else rows[m])
    {
      var node := copy'[j][i].(direction := NONE);
      node := node.(weight := INFINITY);
      assert ResetUpTo(rows[v], rows[j], nE, i)[i := node] == ResetUpTo(rows[v], rows[j], nE, i + 1);
      copy' := copy'[j := copy'[j][i := node]];
      j := j + 1;
    }
  }

  /** The loops of removeOutcomingEdge on the copy of nodes (rows below nV). */
  method RemoveOutgoingNodes(rows: seq<seq<NodeValue>>, nE: nat, v: nat, limit: int) returns (copy: seq<seq<NodeValue>>)
    requires v < |rows| && limit <= |rows| && forall j :: 0 <= j < |rows| ==> |rows[j]| == nE
    ensures copy == ClearedNodes(rows, v, nE, limit)
  {
    copy := rows;
    ResetStart(rows, nE, v, limit);
    var i := 0;
    while i < nE
      invariant 0 <= i <= nE && ResetBelow(copy, rows, nE, v, limit, i)
    {
      ResetKeepsOwn(copy, rows, nE, v, limit, i);
      if copy[v][i].direction == SOURCE {
        copy := ResetColumn(copy, rows, nE, v, limit, i);
      } else {
        ResetSkip(copy, rows, nE, v, limit, i);
      }
      i := i + 1;
    }
    ResetDone(copy, rows, nE, v, limit);
  }

  lemma ResetStart(rows: seq<seq<NodeValue>>, nE: nat, v: nat, limit: int)
    requires v < |rows|
    ensures ResetBelow(rows, rows, nE, v, limit, 0)
  {
    forall m | 0 <= m < |rows| ensures rows[m] == (if m < limit then ResetUpTo(rows[v], rows[m], nE, 0) else rows[m]) {
      assert ResetUpTo(rows[v], rows[m], nE, 0) == rows[m];
    }
  }

  /** Row v's own cell i is still the original one while column i is being looked at. */
  lemma ResetKeepsOwn(copy: seq<seq<NodeValue>>, rows: seq<seq<NodeValue>>, nE: nat, v: nat, limit: int, i: nat)
    requires v < |rows| && i < |rows[v]| && ResetBelow(copy, rows, nE, v, limit, i)
    ensures i < |copy[v]| && copy[v][i] == rows[v][i]
  {
  }

  /** A column v does not source changes nothing. */
  lemma ResetSkip(copy: seq<seq<NodeValue>>, rows: seq<seq<NodeValue>>, nE: nat, v: nat, limit: int, i: nat)
    requires v < |rows| && i < |rows[v]| && rows[v][i].direction != SOURCE
    requires ResetBelow(copy, rows, nE, v, limit, i)
    ensures ResetBelow(copy, rows, nE, v, limit, i + 1)
  {
    forall m | 0 <= m < |copy| && m < limit
      ensures ResetUpTo(rows[v], rows[m], nE, i) == ResetUpTo(rows[v], rows[m], nE, i + 1)
    {
    }
  }

  lemma ResetDone(copy: seq<seq<NodeValue>>, rows: seq<seq<NodeValue>>, nE: nat, v: nat, limit: int)
    requires v < |rows| && ResetBelow(copy, rows, nE, v, limit, nE)
    ensures copy == ClearedNodes(rows, v, nE, limit)
  {
  }

  /** Clearing a vertex's outgoing edges on the nodes clears them on the directions,
      and the directions keep their shape. */
  lemma NodesRound(rows: seq<seq<NodeValue>>, nV: int, nE: nat, visited: set<int>, choice: int)
    requires Fits(DirView(rows, nV, nE))
    requires choice == FreeVertex(DirView(rows, nV, nE), visited) && choice != -1
    ensures 0 <= choice < |rows|
    ensures DirView(ClearedNodes(rows, choice, nE, nV), nV, nE) == Cleared(DirView(rows, nV, nE), choice, nV)
    ensures Fits(Cleared(DirView(rows, nV, nE), choice, nV))
  {
    var g := DirView(rows, nV, nE);
    ClearedNodesView(rows, nV, nE, choice, nV);
    var c := Cleared(g, choice, nV);
    assert Fits(c) by {
      forall j | 0 <= j < |c.rows| ensures |c.rows[j]| == nE {
        assert |g.rows[j]| == nE;
      }
    }
  }

  /** One round of the weighted topologicalSort on the copy of the nodes, whose
      directions are c, with k rounds to go: the first unvisited vertex without incoming
      edges is listed and visited and its outgoing edges cleared, or there is none (-1). */
  method NodesRoundStep(copy: seq<seq<NodeValue>>, nV: int, nE: nat, visited: set<int>, result: seq<int>,
                        k: int, ghost c: Mat)
    returns (choice: int, copy': seq<seq<NodeValue>>, visited': set<int>, result': seq<int>, k': int, ghost c': Mat)
    requires c == DirView(copy, nV, nE) && Fits(c) && k > 0
    ensures choice == -1 ==> Rounds(c, visited, result, k, nV) == Err(Unsupported)
    ensures choice != -1 ==> c' == DirView(copy', nV, nE) && Fits(c') && k' == k - 1
    ensures choice != -1 ==> Rounds(c', visited', result', k', nV) == Rounds(c, visited, result, k, nV)
  {
    choice := FindFree(DirView(copy, nV, nE), visited);
    copy', visited', result', k', c' := copy, visited, result, k, c;
    if choice != -1 {
      NodesRound(copy, nV, nE, visited, choice);
      copy' := RemoveOutgoingNodes(copy, nE, choice, nV);
      c' := Cleared(c, choice, nV);
      visited', result', k' := visited + {choice}, result + [choice], k - 1;
    }
  }

  /** The rounds of the weighted topologicalSort over a copy of the nodes. */
  method SortRoundsNodes(rows: seq<seq<NodeValue>>, nV: int, nE: nat) returns (r: Result<seq<int>>)
    requires Fits(DirView(rows, nV, nE)) && 0 <= nV
    ensures r == Rounds(DirView(rows, nV, nE), {}, [], nV, nV)
  {
    ghost var goal := Rounds(DirView(rows, nV, nE), {}, [], nV, nV);
    var copy := rows;
    ghost var c := DirView(rows, nV, nE);
    var visited: set<int> := {};
    var result: seq<int> := [];
    var left := nV;
    while left > 0
      invariant left >= 0 && c == DirView(copy, nV, nE) && Fits(c)
      invariant Rounds(c, visited, result, left, nV) == goal
    {
      var choice;
      choice, copy, visited, result, left, c := NodesRoundStep(copy, nV, nE, visited, result, left, c);
      if choice == -1 {
        return Err(Unsupported);
      }
    }
    return Ok(result);
  }

  // ---------------------------------------------------------------- the class

  class IncidMatrixDirWeight {
    var numberOfVertices: int
    var numberOfEdge: nat
    var matrix: seq<seq<NodeValue>>

    /** The directions and the two counters as one value. */
    function View(): Mat
      reads this
    {
      DirView(matrix, numberOfVertices, numberOfEdge)
    }

    /** An empty graph. */
    constructor ()
      ensures matrix == [] && View() == Mat([], 0, 0) && Valid(View())
    {
      numberOfVertices := 0;
      numberOfEdge := 0;
      matrix := [];
    }

    /** getEdgeWeight: the loop over the columns, as WeightOf. */
    method GetEdgeWeight(s: int, t: int) returns (r: Result<Weight>)
      requires Consistent(View())
      ensures r == WeightOf(matrix, numberOfVertices, numberOfEdge, s, t)
    {
      if s < 0 || s >= numberOfVertices || t < 0 || t >= numberOfVertices {
        return Err(IllegalArgument);
      }
      var i := 0;
      while i < numberOfEdge
        invariant 0 <= i <= numberOfEdge
        invariant forall k :: 0 <= k < i ==> !Joins(View(), k, s, t)
      {
        var fromVal := matrix[s][i];
        var toVal := matrix[t][i];
        if fromVal.direction == SOURCE && toVal.direction == TARGET {
          assert Joins(View(), i, s, t);
          assert FirstJoin(View(), s, t, 0) == i;
          return Ok(fromVal.weight);
        }
        i := i + 1;
      }
      return Err(NoSuchElement);
    }

    /** setEdgeWeight: IllegalArgument or NoSuchElement as getEdgeWeight, changing nothing;
        otherwise both cells of the edge's column take the weight w. */
    method SetEdgeWeight(s: int, t: int, w: Weight) returns (o: Outcome)
      requires Consistent(View())
      modifies this
      ensures o == Fail(IllegalArgument) <==> !(0 <= s < old(numberOfVertices) && 0 <= t < old(numberOfVertices))
      ensures o == Fail(NoSuchElement) <==>
        0 <= s < old(numberOfVertices) && 0 <= t < old(numberOfVertices) && !old(Arc(View(), s, t))
      ensures o.Pass? <==> old(Arc(View(), s, t))
      ensures o.Fail? ==> matrix == old(matrix)
      ensures numberOfVertices == old(numberOfVertices) && numberOfEdge == old(numberOfEdge) && View() == old(View())
      ensures o.Pass? ==> matrix == Reweighed(old(matrix), ColumnOf(old(View()), s, t), s, t, w)
      ensures o.Pass? ==> WeightOf(matrix, numberOfVertices, numberOfEdge, s, t) == Ok(w)
    {
      if s < 0 || s >= numberOfVertices || t < 0 || t >= numberOfVertices {
        return Fail(IllegalArgument);
      }
      ghost var g := View();
      var found := FindColumn(View(), s, t);
      JoinScanInRange(g, s, t);
      var c := found.value;
      if c == -1 {
        return Fail(NoSuchElement);
      }
      assert Joins(g, c, s, t);
      SetThenGet(matrix, numberOfVertices, numberOfEdge, s, t, w);
      ReweighedDirections(matrix, c, s, t, w);
      matrix := Reweighed(matrix, c, s, t, w);
      return Pass;
    }

    /** addVertex: a new row of fresh nodes (NONE, INFINITY); returns the new vertex. */
    method AddVertex() returns (v: int)
      modifies this
      ensures matrix == old(matrix) + [Filled(numberOfEdge, EMPTY)] && numberOfEdge == old(numberOfEdge)
      ensures View() == WithRow(old(View())) && v == old(numberOfVertices)
      ensures old(Consistent(View())) ==> Consistent(View())
      ensures old(Valid(View())) ==> Valid(View()) && EdgeSet(View()) == old(EdgeSet(View()))
    {
      ghost var g := View();
      ghost var m := matrix;
      var newVertex: seq<NodeValue> := [];
      var i := 0;
      while i < numberOfEdge
        invariant matrix == m && numberOfVertices == g.nV && numberOfEdge == g.nE
        invariant 0 <= i <= numberOfEdge
        invariant |newVertex| == i && forall k :: 0 <= k < i ==> newVertex[k] == EMPTY
      {
        var node := new Node();
        node.MakeNode(NONE, INFINITY);
        newVertex := newVertex + [node.Value()];
        i := i + 1;
      }
      assert newVertex == Filled(numberOfEdge, EMPTY);
      MapAppendRow(matrix, newVertex, Dir);
      MapFilled(numberOfEdge, EMPTY, Dir);
      matrix := matrix + [newVertex];
      numberOfVertices := numberOfVertices + 1;
      if Consistent(g) {
        WithRowConsistent(g);
      }
      if Valid(g) {
        WithRowKeepsEdges(g);
      }
      v := numberOfVertices - 1;
    }

    /** getVertices: the integers 0 .. numberOfVertices-1. */
    method GetVertices() returns (vs: set<int>)
      ensures forall v :: v in vs <==> 0 <= v < numberOfVertices
    {
      vs := {};
      var i := 0;
      while i < numberOfVertices
        invariant 0 <= i && (i <= numberOfVertices || i == 0)
        invariant forall v :: v in vs <==> 0 <= v < i
      {
        vs := vs + {i};
        i := i + 1;
      }
    }

    /** containsVertex: true for every vertex and for every negative integer. */
    method ContainsVertex(i: int) returns (b: bool)
      ensures 0 <= i ==> (b <==> i in Vertices(numberOfVertices))
      ensures i < 0 ==> b == (i < numberOfVertices)
    {
      b := i < numberOfVertices;
    }

    /** removeVertex: fails only above the vertex count, so i == numberOfVertices passes;
        the matrix stays as it is and only the count drops. */
    method RemoveVertex(i: int) returns (o: Outcome)
      modifies this
      ensures o.Fail? <==> old(numberOfVertices) < i
      ensures o.Fail? ==> o.error == NoSuchElement && matrix == old(matrix) && View() == old(View())
      ensures o.Pass? ==> matrix == old(matrix) && numberOfEdge == old(numberOfEdge)
      ensures o.Pass? ==> numberOfVertices == old(numberOfVertices) - 1
      ensures o.Pass? && old(Consistent(View())) ==> Consistent(View())
      ensures o.Pass? ==> forall a, b :: Arc(View(), a, b) <==>
        old(Arc(View(), a, b)) && a != old(numberOfVertices) - 1 && b != old(numberOfVertices) - 1
    {
      if numberOfVertices < i {
        return Fail(NoSuchElement);
      }
      ghost var g := View();
      numberOfVertices := numberOfVertices - 1;
      FewerVertices(g, numberOfVertices);
      return Pass;
    }

    /** addEdge(s, t): IllegalArgument unless both ends are vertices; nothing happens when
        a column already joins them; otherwise fresh nodes are appended to the first
        numberOfVertices rows, SOURCE at s and TARGET at t, all weighing INFINITY. */
    method AddEdge(s: int, t: int) returns (o: Outcome)
      requires Consistent(View())
      modifies this
      ensures o.Fail? <==> !(0 <= s < old(numberOfVertices) && 0 <= t < old(numberOfVertices))
      ensures o.Fail? ==> o.error == IllegalArgument
      ensures o.Fail? || old(Arc(View(), s, t)) ==> matrix == old(matrix) && View() == old(View())
      ensures o.Pass? && !old(Arc(View(), s, t)) ==>
        matrix == PushColumn(old(matrix), NodeColumn(old(numberOfVertices), s, t)) &&
        View() == WithColumn(old(View()), s, t)
      ensures o.Pass? && old(Valid(View())) ==>
        Valid(View()) && EdgeSet(View()) == old(EdgeSet(View())) + (if s != t then {(s, t)} else {})
      ensures o.Pass? && old(Valid(View())) && !old(Arc(View(), s, t)) && s != t ==>
        WeightOf(matrix, numberOfVertices, numberOfEdge, s, t) == Ok(INFINITY)
    {
      if s < 0 || s >= numberOfVertices || t < 0 || t >= numberOfVertices {
        return Fail(IllegalArgument);
      }
      ghost var g := View();
      ghost var m := matrix;
      var found := FindColumn(View(), s, t);
      JoinScanInRange(g, s, t);
      if found.value != -1 {
        return Pass;
      }
      AddedColumn(m, g.nV, g.nE, s, t);
      matrix := AppendNodeColumn(matrix, numberOfVertices, s, t);
      numberOfEdge := numberOfEdge + 1;
      return Pass;
    }

    /** containsEdge(s, t): IllegalArgument unless both ends are vertices, else whether
        (s, t) is an edge. */
    method ContainsEdge(s: int, t: int) returns (r: Result<bool>)
      requires Consistent(View())
      ensures r.Err? <==> !(0 <= s < numberOfVertices && 0 <= t < numberOfVertices)
      ensures r.Err? ==> r.error == IllegalArgument
      ensures r.Ok? ==> (r.value <==> Arc(View(), s, t))
    {
      if s < 0 || s >= numberOfVertices || t < 0 || t >= numberOfVertices {
        return Err(IllegalArgument);
      }
      var found := FindColumn(View(), s, t);
      JoinScanInRange(View(), s, t);
      return Ok(found.value != -1);
    }

    /** removeEdge(s, t): IllegalArgument unless both ends are vertices, NoSuchElement when
        absent; otherwise its column is deleted from the first numberOfVertices rows. */
    method RemoveEdge(s: int, t: int) returns (o: Outcome)
      requires Consistent(View())
      modifies this
      ensures o == Fail(IllegalArgument) <==> !(0 <= s < old(numberOfVertices) && 0 <= t < old(numberOfVertices))
      ensures o == Fail(NoSuchElement) <==>
        0 <= s < old(numberOfVertices) && 0 <= t < old(numberOfVertices) && !old(Arc(View(), s, t))
      ensures o.Pass? <==> old(Arc(View(), s, t))
      ensures o.Fail? ==> matrix == old(matrix) && View() == old(View())
      ensures o.Pass? ==>
        matrix == DropColumn(old(matrix), old(numberOfVertices), ColumnOf(old(View()), s, t)) &&
        View() == WithoutColumn(old(View()), old(numberOfVertices), ColumnOf(old(View()), s, t))
      ensures o.Pass? && old(Valid(View())) ==>
        Valid(View()) && EdgeSet(View()) == old(EdgeSet(View())) - {(s, t)}
    {
      if s < 0 || s >= numberOfVertices || t < 0 || t >= numberOfVertices {
        return Fail(IllegalArgument);
      }
      ghost var g := View();
      ghost var m := matrix;
      var found := FindColumn(View(), s, t);
      JoinScanInRange(g, s, t);
      var col := found.value;
      if col == -1 {
        return Fail(NoSuchElement);
      }
      assert Joins(g, col, s, t);
      assert forall k :: 0 <= k < |m| ==> |m[k]| == |g.rows[k]|;
      matrix := RemoveColumn(matrix, numberOfVertices, col);
      numberOfEdge := numberOfEdge - 1;
      MapDropColumn(m, g.nV, col, Dir);
      if Valid(g) {
        WithoutColumnEdges(g, col, s, t);
      }
      return Pass;
    }

    /** getAdjacent(v): NoSuchElement unless v is a vertex, else the heads of v's edges. */
    method GetAdjacent(v: int) returns (r: Result<set<int>>)
      requires Consistent(View())
      ensures r.Err? <==> !(0 <= v < numberOfVertices)
      ensures r.Err? ==> r.error == NoSuchElement
      ensures r.Ok? ==> r.value == Succ(View(), v) && forall t :: t in r.value <==> Arc(View(), v, t)
    {
      if v >= numberOfVertices || v < 0 {
        return Err(NoSuchElement);
      }
      var adj := Adjacent(View(), v);
      return Ok(adj);
    }

    /** isAdjacent(u, v): IllegalArgument unless both are vertices, else whether (u, v) is an edge. */
    method IsAdjacent(u: int, v: int) returns (r: Result<bool>)
      requires Consistent(View())
      ensures r.Err? <==> !(0 <= u < numberOfVertices && 0 <= v < numberOfVertices)
      ensures r.Err? ==> r.error == IllegalArgument
      ensures r.Ok? ==> (r.value <==> Arc(View(), u, v))
    {
      if u >= numberOfVertices || v >= numberOfVertices || u < 0 || v < 0 {
        return Err(IllegalArgument);
      }
      var found := FindColumn(View(), u, v);
      JoinScanInRange(View(), u, v);
      return Ok(found.value != -1);
    }

    /** getEdges: one pair per column whose two ends were found, i.e. the edge set. */
    method GetEdges() returns (es: set<(int, int)>)
      requires Consistent(View())
      ensures es == EdgeSet(View())
      ensures forall s, t :: (s, t) in es <==> Arc(View(), s, t)
    {
      es := EdgeScan(View());
      forall s, t ensures (s, t) in es <==> Arc(View(), s, t) {
        InEdgeSet(View(), s, t);
      }
    }

    /** size: the vertex count, which on a well-formed graph is the number of rows. */
    method Size() returns (n: int)
      ensures n == numberOfVertices
      ensures Valid(View()) ==> n == |matrix|
    {
      n := numberOfVertices;
    }

    /** isDirected: always. */
    method IsDirected() returns (d: bool)
      ensures d
    {
      d := true;
    }

    /** isCyclic: whether the graph has a cycle. */
    method IsCyclic() returns (cyclic: bool)
      requires Consistent(View())
      ensures cyclic <==> HasCycle(View())
    {
      cyclic := Traversal.IsCyclic(View());
    }

    /** isDAG: directed and not cyclic. */
    method IsDAG() returns (dag: bool)
      requires Consistent(View())
      ensures dag <==> !HasCycle(View())
    {
      var directed := IsDirected();
      var cyclic := IsCyclic();
      dag := directed && !cyclic;
    }

    /** getBFSTree(v): IllegalArgument unless v is a vertex, else one breadth-first visit from v. */
    method GetBFSTree(v: int) returns (res: Result<Visit>, ghost enqueued: seq<int>)
      requires Consistent(View())
      ensures res.Err? <==> !(0 <= v < numberOfVertices)
      ensures res.Err? ==> res.error == IllegalArgument
      ensures res.Ok? ==> BfsTreeOf(View(), v, res.value, enqueued)
    {
      res, enqueued := BfsTree(View(), v);
    }

    /** getDFSTree(v): IllegalArgument unless v is a vertex, else one depth-first visit from v. */
    method GetDFSTree(v: int) returns (res: Result<Visit>)
      requires Consistent(View())
      ensures res.Err? <==> !(0 <= v < numberOfVertices)
      ensures res.Err? ==> res.error == IllegalArgument
      ensures res.Ok? ==> DfsTreeOf(View(), v, res.value)
    {
      res := DfsTree(View(), v);
    }

    /** getDFSTOTForest(v): the depth-first forest started at v. */
    method GetDFSTOTForest(v: int) returns (res: Result<Visit>)
      requires Consistent(View())
      ensures res.Err? <==> !(0 <= v < numberOfVertices)
      ensures res.Err? ==> res.error == IllegalArgument
      ensures res.Ok? ==> ForestOf(View(), res.value) && v in res.value.start && res.value.start[v] == 1
    {
      res := DfsForest(View(), v);
    }

    /** getDFSTOTForest(roots): the depth-first forest started at the given roots in turn. */
    method GetDFSTOTForestRoots(roots: seq<int>) returns (res: Result<Visit>)
      requires Consistent(View())
      ensures res.Err? <==> exists k :: 0 <= k < |roots| && !(0 <= roots[k] < numberOfVertices)
      ensures res.Err? ==> res.error == IllegalArgument
      ensures res.Ok? ==> ForestOf(View(), res.value)
      ensures res.Ok? && |roots| > 0 ==> roots[0] in res.value.start && res.value.start[roots[0]] == 1
    {
      res := DfsForestFrom(View(), roots);
    }

    /** topologicalSort: Kahn's rounds on a deep copy of the nodes, clearing only the first
        numberOfVertices rows; on a well-formed graph it fails exactly when the graph has a
        cycle and otherwise lists every vertex once, each edge pointing forwards. */
    method TopologicalSort() returns (r: Result<seq<int>>)
      requires Consistent(View())
      ensures r == TopoSpec(View(), numberOfVertices)
      ensures Valid(View()) ==> (r.Ok? <==> !HasCycle(View()))
      ensures Valid(View()) && r.Err? ==> r.error == Unsupported
      ensures Valid(View()) && r.Ok? ==> TopoOrder(View(), r.value)
    {
      var cyclic := IsCyclic();
      if cyclic {
        return Err(Unsupported);
      }
      if numberOfVertices < 0 {
        return Err(NegativeArraySize);
      }
      r := SortRoundsNodes(matrix, numberOfVertices, numberOfEdge);
      if Valid(View()) {
        TopoSortCorrect(View(), numberOfVertices);
      }
    }

    /** getTranspose: a new weighted graph with the same vertices and every edge turned
        around, built through addVertex and addEdge (so every weight is INFINITY). */
    method GetTranspose() returns (t: IncidMatrixDirWeight)
      requires Consistent(View())
      ensures fresh(t) && Valid(t.View())
      ensures t.numberOfVertices == if numberOfVertices < 0 then 0 else numberOfVertices
      ensures Transposed(View(), t.View())
    {
      t := new IncidMatrixDirWeight();
      var i := 0;
      while i < numberOfVertices
        invariant 0 <= i && (i <= numberOfVertices || i == 0)
        invariant fresh(t) && Valid(t.View()) && t.numberOfVertices == i && EdgeSet(t.View()) == {}
      {
        var _ := t.AddVertex();
        i := i + 1;
      }
      AddFlippedEdges(t);
    }

    /** The edge loop of getTranspose: the ends of every column, turned around, added to t. */
    method AddFlippedEdges(t: IncidMatrixDirWeight)
      requires Consistent(View()) && t != this
      requires Valid(t.View()) && EdgeSet(t.View()) == {}
      requires t.numberOfVertices == if numberOfVertices < 0 then 0 else numberOfVertices
      modifies t
      ensures Valid(t.View()) && t.numberOfVertices == old(t.numberOfVertices)
      ensures Transposed(View(), t.View())
    {
      ghost var g := View();
      var k := 0;
      while k < numberOfEdge
        invariant 0 <= k <= numberOfEdge
        invariant Valid(t.View()) && t.numberOfVertices == old(t.numberOfVertices)
        invariant EdgeSet(t.View()) == Flipped(EdgesBelow(g, k))
      {
        AddFlippedColumn(t, k);
        k := k + 1;
      }
      EdgesBelowAll(g);
      FlippedArcs(g, t.View());
    }

    /** One round of the edge loop of getTranspose: column k's ends, when both are
        vertices, become an edge of t from the TARGET row to the SOURCE row. */
    method AddFlippedColumn(t: IncidMatrixDirWeight, k: int)
      requires Consistent(View()) && t != this && 0 <= k < numberOfEdge
      requires Valid(t.View()) && EdgeSet(t.View()) == Flipped(EdgesBelow(View(), k))
      requires t.numberOfVertices == if numberOfVertices < 0 then 0 else numberOfVertices
      modifies t
      ensures Valid(t.View()) && t.numberOfVertices == old(t.numberOfVertices)
      ensures EdgeSet(t.View()) == Flipped(EdgesBelow(View(), k + 1))
    {
      var source, destination := ColumnEnds(View(), k);
      ColumnStep(View(), k, source, destination);
      FlippedStep(View(), k, source, destination);
      if source.Some? && destination.Some? {
        var _ := t.AddEdge(destination.value, source.value);
      }
    }

    /** stronglyConnectedComponents (Kosaraju) over the direction view: the finish list of a
        first pass, then one component per visit of the transposed graph in reverse finishing
        order. The components are nonempty, disjoint and cover the vertices, and the component
        of any vertex u holds exactly the vertices mutually reachable with u. */
    method StronglyConnectedComponents() returns (cfc: set<set<int>>)
      requires Consistent(View())
      ensures Partition(cfc, numberOfVertices)
      ensures forall c, u, w :: c in cfc && u in c ==> (w in c <==> MutuallyReachable(View(), u, w))
    {
      var resultDFS := FinishOrder(View());
      var transposeGraph := GetTranspose();
      TransposedBack(View(), transposeGraph.View());
      cfc := Components(View(), transposeGraph.View(), resultDFS);
    }

    /** connectedComponents: throws UnsupportedOperationException. */
    method ConnectedComponents() returns (r: Result<set<set<int>>>)
      ensures r == Err(Unsupported)
    {
      r := Err(Unsupported);
    }
  }
}

/** topologicalSort: the removal of sources (Kahn's method) on a private copy of the
    matrix, as the main and the weighted classes do it. */
module Kahn {
  import opened Incidences
  import opened Errors
  import opened Graphs

  /** Row j of the copy has no TARGET among its first nE cells. */
  predicate NoIncoming(c: Mat, j: int)
  {
    forall i :: 0 <= i < c.nE ==> Cell(c, j, i) != TARGET
  }

  /** The first row at or after j that is unvisited and has no incoming edge left, or -1. */
  function FreeFrom(c: Mat, visited: set<int>, j: nat): (r: int)
    requires j <= |c.rows|
    ensures r == -1 || j <= r < |c.rows|
    ensures r >= 0 ==> r !in visited && NoIncoming(c, r)
    ensures forall k :: j <= k < (if r == -1 then |c.rows| else r) ==> k in visited || !NoIncoming(c, k)
    decreases |c.rows| - j
  {
    if j == |c.rows| then -1
    else if j !in visited && NoIncoming(c, j) then j
    else FreeFrom(c, visited, j + 1)
  }

  /** getVertexWithoutIncomingEdge: the lowest row of the copy (stale rows included) to pick next. */
  function FreeVertex(c: Mat, visited: set<int>): int
  {
    FreeFrom(c, visited, 0)
  }

  /** removeOutcomingEdge(v): every column below nE with v's SOURCE becomes NONE in the
      rows below limit (all rows of the copy in the main class, the first nV in the weighted one). */
  function Cleared(c: Mat, v: int, limit: int): (r: Mat)
    ensures r.nV == c.nV && r.nE == c.nE && |r.rows| == |c.rows|
    ensures forall j :: 0 <= j < |c.rows| ==> |r.rows[j]| == |c.rows[j]|
    ensures forall j, i :: 0 <= j < limit && 0 <= i < c.nE && Cell(c, v, i) == SOURCE ==> Cell(r, j, i) == NONE
    ensures forall j, i :: !(0 <= j < limit && 0 <= i < c.nE && Cell(c, v, i) == SOURCE) ==> Cell(r, j, i) == Cell(c, j, i)
  {
    Mat(seq(|c.rows|, j requires 0 <= j < |c.rows| =>
          if j < limit then ClearedUpTo(c, c.rows[j], v, c.nE) else c.rows[j]), c.nV, c.nE)
  }

  /** One row with the columns below n that v sources set to NONE. */
  function ClearedUpTo(c: Mat, row: seq<Incidence>, v: int, n: int): (r: seq<Incidence>)
    ensures |r| == |row|
    ensures forall i :: 0 <= i < |row| ==> r[i] == (if i < n && i < c.nE && Cell(c, v, i) == SOURCE then NONE else row[i])
  {
    seq(|row|, i requires 0 <= i < |row| => if i < n && i < c.nE && Cell(c, v, i) == SOURCE then NONE else row[i])
  }

  lemma ClearedStep(c: Mat, row: seq<Incidence>, v: int, i: int)
    requires 0 <= i < |row| && i < c.nE
    ensures Cell(c, v, i) == SOURCE ==> ClearedUpTo(c, row, v, i)[i := NONE] == ClearedUpTo(c, row, v, i + 1)
    ensures Cell(c, v, i) != SOURCE ==> ClearedUpTo(c, row, v, i) == ClearedUpTo(c, row, v, i + 1)
  {
  }

  lemma ClearedNothing(c: Mat, row: seq<Incidence>, v: int)
    ensures ClearedUpTo(c, row, v, 0) == row
  {
  }

  /** The rounds of topologicalSort still to go: k picks, each followed by the clearing,
      with `acc` listed so far; a round finding no vertex throws UnsupportedOperationException. */
  function Rounds(c: Mat, visited: set<int>, acc: seq<int>, k: nat, limit: int): Result<seq<int>>
    decreases k
  {
    if k == 0 then Ok(acc)
    else
      var choice := FreeVertex(c, visited);
      if choice == -1 then Err(Unsupported)
      else Rounds(Cleared(c, choice, limit), visited + {choice}, acc + [choice], k - 1, limit)
  }

  /** topologicalSort: Unsupported on a cyclic graph; an Integer array of negative length
      fails; otherwise nV rounds on a copy of the matrix. */
  ghost function TopoSpec(g: Mat, limit: int): Result<seq<int>>
  {
    if HasCycle(g) then Err(Unsupported)
    else if g.nV < 0 then Err(NegativeArraySize)
    else Rounds(g, {}, [], g.nV, limit)
  }

  // ---------------------------------------------------------------- the loops

  /** The loop of getVertexWithoutIncomingEdge. */
  method FindFree(c: Mat, visited: set<int>) returns (choice: int)
    requires Fits(c)
    ensures choice == FreeVertex(c, visited)
  {
    var i := 0;
    while i < |c.rows|
      invariant 0 <= i <= |c.rows|
      invariant FreeFrom(c, visited, i) == FreeFrom(c, visited, 0)
    {
      if i !in visited {
        var hasIncoming := false;
        var j := 0;
        while j < c.nE
          invariant 0 <= j <= c.nE
          invariant hasIncoming <==> exists k :: 0 <= k < j && Cell(c, i, k) == TARGET
        {
          if c.rows[i][j] == TARGET {
            assert Cell(c, i, j) == TARGET;
            hasIncoming := true;
            break;
          }
          j := j + 1;
        }
        if !hasIncoming {
          return i;
        }
      }
      i := i + 1;
    }
    return -1;
  }

  /** The loops of removeOutcomingEdge over the copy. */
  method RemoveOutgoing(c: Mat, v: int, limit: int) returns (d: Mat)
    requires Fits(c) && 0 <= v < |c.rows| && limit <= |c.rows|
    ensures d == Cleared(c, v, limit)
  {
    var rows := c.rows;
    forall m | 0 <= m < |rows| ensures rows[m] == (if m < limit then ClearedUpTo(c, c.rows[m], v, 0) else c.rows[m]) {
      ClearedNothing(c, c.rows[m], v);
    }
    var i := 0;
    while i < c.nE
      invariant 0 <= i <= c.nE && |rows| == |c.rows|
      invariant forall m :: 0 <= m < |rows| ==> rows[m] == (if m < limit then ClearedUpTo(c, c.rows[m], v, i) else c.rows[m])
    {
      assert rows[v][i] == c.rows[v][i] == Cell(c, v, i);
      if rows[v][i] == SOURCE {
        var j := 0;
        while j < limit
          invariant 0 <= j && (j <= limit || j == 0) && |rows| == |c.rows|
          invariant forall m :: 0 <= m < |rows| ==>
            rows[m] == (if m < limit then ClearedUpTo(c, c.rows[m], v, if m < j then i + 1 else i) else c.rows[m])
        {
          ClearedStep(c, c.rows[j], v, i);
          rows := rows[j := rows[j][i := NONE]];
          j := j + 1;
        }
      } else {
        forall m | 0 <= m < |rows| && m < limit ensures ClearedUpTo(c, c.rows[m], v, i) == ClearedUpTo(c, c.rows[m], v, i + 1) {
          ClearedStep(c, c.rows[m], v, i);
        }
      }
      i := i + 1;
    }
    d := Mat(rows, c.nV, c.nE);
    assert rows == Cleared(c, v, limit).rows;
  }

  /** The rounds of topologicalSort over a copy of the matrix (a sequence is a value, so
      copying the rows is the assignment). */
  method SortRounds(g: Mat, limit: int) returns (r: Result<seq<int>>)
    requires Fits(g) && 0 <= g.nV && limit <= |g.rows|
    ensures r == Rounds(g, {}, [], g.nV, limit)
  {
    var copy := g;
    var visited: set<int> := {};
    var result: seq<int> := [];
    var i := 0;
    while i < g.nV
      invariant 0 <= i <= g.nV
      invariant Fits(copy) && |copy.rows| == |g.rows| && copy.nV == g.nV && copy.nE == g.nE
      invariant Rounds(copy, visited, result, g.nV - i, limit) == Rounds(g, {}, [], g.nV, limit)
    {
      var choice := FindFree(copy, visited);
      if choice == -1 {
        return Err(Unsupported);
      }
      visited := visited + {choice};
      result := result + [choice];
      copy := RemoveOutgoing(copy, choice, limit);
      i := i + 1;
    }
    return Ok(result);
  }

  // ---------------------------------------------------------------- why the rounds sort

  /** order lists every vertex exactly once and every edge goes from an earlier entry to a later one. */
  ghost predicate TopoOrder(g: Mat, order: seq<int>)
  {
    && |order| == g.nV && Distinct(order)
    && (forall u :: u in order <==> 0 <= u < g.nV)
    && (forall p, q :: 0 <= p < |order| && 0 <= q < |order| && Arc(g, order[p], order[q]) ==> p < q)
  }

  /** Column i has been blanked: a picked vertex is its SOURCE. */
  ghost predicate Gone(g: Mat, visited: set<int>, i: int)
  {
    exists s :: s in visited && Cell(g, s, i) == SOURCE
  }

  /** The copy after the rounds that picked `visited`: the columns they source are blank,
      every other cell is the graph's. */
  ghost predicate Residual(g: Mat, c: Mat, visited: set<int>)
  {
    && c.nV == g.nV && c.nE == g.nE && |c.rows| == |g.rows|
    && (forall j :: 0 <= j < |c.rows| ==> |c.rows[j]| == |g.rows[j]|)
    && (forall j, i :: 0 <= i < g.nE ==> Cell(c, j, i) == if Gone(g, visited, i) then NONE else Cell(g, j, i))
  }

  /** The list so far: distinct vertices, exactly the picked ones, closed under predecessors,
      and no edge from a later entry to an earlier one. */
  ghost predicate Prefix(g: Mat, visited: set<int>, acc: seq<int>)
  {
    && Distinct(acc) && |visited| == |acc|
    && (forall u :: u in visited <==> u in acc)
    && (forall u :: u in visited ==> 0 <= u < g.nV)
    && (forall a, b :: Arc(g, a, b) && b in visited ==> a in visited)
    && (forall p, q :: 0 <= p < q < |acc| ==> !Arc(g, acc[q], acc[p]))
  }

  lemma {:induction false} SubsetSize(a: set<int>, b: set<int>)
    requires a <= b
    ensures |a| <= |b|
    ensures |a| == |b| ==> a == b
    decreases |a|
  {
    if a != {} {
      assert exists x :: x in a by {
        if forall x :: x !in a {
          assert false;
        }
      }
      var x :| x in a;
      SubsetSize(a - {x}, b - {x});
      assert a == (a - {x}) + {x};
    }
  }

  /** While fewer than nV vertices are listed, an acyclic graph leaves a vertex to pick:
      otherwise every unpicked vertex would have an unpicked predecessor. */
  lemma FreeExists(g: Mat, c: Mat, visited: set<int>, acc: seq<int>)
    requires Valid(g) && !HasCycle(g) && Residual(g, c, visited) && Prefix(g, visited, acc)
    requires |acc| < g.nV
    ensures FreeVertex(c, visited) != -1
  {
    var U := Vertices(g.nV) - visited;
    if U == {} {
      SubsetSize(Vertices(g.nV), visited);
      VerticesSize(g.nV);
      assert false;
    }
    if FreeVertex(c, visited) == -1 {
      forall x | x in U ensures HasPred(g, U, x) {
        assert !NoIncoming(c, x);
        var i :| 0 <= i < c.nE && Cell(c, x, i) == TARGET;
        assert !Gone(g, visited, i) && Cell(g, x, i) == TARGET;
        assert HasSource(g, i);
        var s :| 0 <= s < |g.rows| && Cell(g, s, i) == SOURCE;
        assert Joins(g, i, s, x);
        assert s in U;
      }
      PredecessorsGiveCycle(g, U);
      assert false;
    }
  }

  /** One round keeps the copy and the list in step with the graph. */
  lemma RoundStep(g: Mat, c: Mat, visited: set<int>, acc: seq<int>, ch: int, limit: int)
    requires Valid(g) && limit == |g.rows| && Residual(g, c, visited) && Prefix(g, visited, acc)
    requires ch == FreeVertex(c, visited) && ch != -1
    ensures Residual(g, Cleared(c, ch, limit), visited + {ch})
    ensures Prefix(g, visited + {ch}, acc + [ch])
  {
    var c' := Cleared(c, ch, limit);
    var v' := visited + {ch};
    forall j, i | 0 <= i < g.nE ensures Cell(c', j, i) == if Gone(g, v', i) then NONE else Cell(g, j, i) {
      if Gone(g, visited, i) {
        var s :| s in visited && Cell(g, s, i) == SOURCE;
        assert s in v';
      } else if Cell(g, ch, i) == SOURCE {
        assert ch in v';
      } else {
        assert !Gone(g, v', i);
      }
    }
    forall a, b | Arc(g, a, b) && b == ch ensures a in visited {
      var i :| 0 <= i < g.nE && Joins(g, i, a, b);
      assert Cell(c, ch, i) != TARGET;
      var s :| s in visited && Cell(g, s, i) == SOURCE;
    }
    assert forall b :: b in visited ==> !Arc(g, ch, b);
    var acc' := acc + [ch];
    forall p, q | 0 <= p < q < |acc'| ensures !Arc(g, acc'[q], acc'[p]) {
      if q == |acc| {
        assert acc'[p] == acc[p] && acc[p] in visited;
      } else {
        assert acc'[q] == acc[q] && acc'[p] == acc[p];
      }
    }
  }

  /** A list of all nV vertices that is a prefix in the above sense is a topological order. */
  lemma PrefixComplete(g: Mat, visited: set<int>, acc: seq<int>)
    requires Valid(g) && Prefix(g, visited, acc) && |acc| == g.nV
    ensures TopoOrder(g, acc)
  {
    SubsetSize(visited, Vertices(g.nV));
    VerticesSize(g.nV);
    assert forall x :: !Arc(g, x, x);
  }

  /** On an acyclic graph all nV rounds find a vertex, and the list they build is a
      topological order. */
  lemma RoundsSucceed(g: Mat, limit: int)
    requires Valid(g) && !HasCycle(g) && limit == |g.rows|
    ensures Rounds(g, {}, [], g.nV, limit).Ok? && TopoOrder(g, Rounds(g, {}, [], g.nV, limit).value)
  {
    forall i | 0 <= i < g.nE ensures !Gone(g, {}, i) {
    }
    var goal := Rounds(g, {}, [], g.nV, limit);
    var c, visited, acc, left: nat := g, {}, [], g.nV;
    while left > 0
      invariant Residual(g, c, visited) && Prefix(g, visited, acc) && |acc| + left == g.nV
      invariant Rounds(c, visited, acc, left, limit) == goal
    {
      c, visited, acc, left := RoundAdvance(g, c, visited, acc, left, limit);
    }
    PrefixComplete(g, visited, acc);
  }

  /** On an acyclic graph a round with vertices left finds one and hands on a state that
      is again in step with the graph, with the same outcome. */
  lemma RoundAdvance(g: Mat, c: Mat, visited: set<int>, acc: seq<int>, k: nat, limit: int)
      returns (c': Mat, visited': set<int>, acc': seq<int>, k': nat)
    requires Valid(g) && !HasCycle(g) && limit == |g.rows|
    requires Residual(g, c, visited) && Prefix(g, visited, acc) && |acc| + k == g.nV && k > 0
    ensures Residual(g, c', visited') && Prefix(g, visited', acc') && |acc'| + k' == g.nV && k' == k - 1
    ensures Rounds(c, visited, acc, k, limit) == Rounds(c', visited', acc', k', limit)
  {
    FreeExists(g, c, visited, acc);
    var ch := FreeVertex(c, visited);
    RoundStep(g, c, visited, acc, ch, limit);
    c', visited', acc', k' := Cleared(c, ch, limit), visited + {ch}, acc + [ch], k - 1;
  }

  /** topologicalSort on a well-formed graph: Unsupported exactly when the graph has a
      cycle, and otherwise a topological order of all its vertices. */
  lemma TopoSortCorrect(g: Mat, limit: int)
    requires Valid(g) && limit == |g.rows|
    ensures TopoSpec(g, limit).Err? <==> HasCycle(g)
    ensures HasCycle(g) ==> TopoSpec(g, limit) == Err(Unsupported)
    ensures !HasCycle(g) ==> TopoOrder(g, TopoSpec(g, limit).value)
  {
    if !HasCycle(g) {
      RoundsSucceed(g, limit);
    }
  }

  /** The index of x in s. */
  function Position(s: seq<int>, x: int): (r: int)
    requires x in s
    ensures 0 <= r < |s| && s[r] == x
  {
    if s[0] == x then 0 else 1 + Position(s[1..], x)
  }

  /** Conversely, a graph with a topological order has no cycle: an order is a ranking
      that falls along every edge. */
  lemma TopoOrderAcyclic(g: Mat, order: seq<int>)
    requires TopoOrder(g, order)
    ensures !HasCycle(g)
  {
    var rank := map u | u in order :: |order| - Position(order, u);
    forall u, w | Arc(g, u, w) ensures u in rank && w in rank && rank[w] < rank[u] {
      assert 0 <= u < g.nV && 0 <= w < g.nV;
      var p := Position(order, u);
      var q := Position(order, w);
      assert p < q;
    }
    RankForbidsCycle(g, rank);
  }

  // ---------------------------------------------------------------- the sample of the test suite

  /** The matrix loadDataGraph builds: four vertices and the edges (0,1), (0,2), (1,2),
      (2,3), (0,3), one column each in that order. */
  function SampleGraph(): Mat
  {
    Mat([[SOURCE, SOURCE, NONE, NONE, SOURCE],
         [TARGET, NONE, SOURCE, NONE, NONE],
         [NONE, TARGET, TARGET, SOURCE, NONE],
         [NONE, NONE, NONE, TARGET, TARGET]], 4, 5)
  }

  lemma SampleArcs()
    ensures Valid(SampleGraph())
    ensures forall u, w :: Arc(SampleGraph(), u, w) <==> (u, w) in {(0, 1), (0, 2), (1, 2), (2, 3), (0, 3)}
  {
    var g := SampleGraph();
    forall u, w ensures Arc(g, u, w) <==> (u, w) in {(0, 1), (0, 2), (1, 2), (2, 3), (0, 3)} {
      if (u, w) == (0, 1) { assert Joins(g, 0, 0, 1); }
      if (u, w) == (0, 2) { assert Joins(g, 1, 0, 2); }
      if (u, w) == (1, 2) { assert Joins(g, 2, 1, 2); }
      if (u, w) == (2, 3) { assert Joins(g, 3, 2, 3); }
      if (u, w) == (0, 3) { assert Joins(g, 4, 0, 3); }
    }
    assert forall i :: 0 <= i < g.nE ==> HasSource(g, i) by {
      assert Cell(g, 0, 0) == SOURCE && Cell(g, 0, 1) == SOURCE && Cell(g, 1, 2) == SOURCE;
      assert Cell(g, 2, 3) == SOURCE && Cell(g, 0, 4) == SOURCE;
    }
  }

  /** The sample has a single topological order, since 0, 1, 2, 3 is a path through it. */
  lemma SampleOrderUnique(order: seq<int>)
    requires TopoOrder(SampleGraph(), order)
    ensures order == [0, 1, 2, 3]
  {
    var g := SampleGraph();
    SampleArcs();
    var p0, p1, p2, p3 := Position(order, 0), Position(order, 1), Position(order, 2), Position(order, 3);
    assert Arc(g, order[p0], order[p1]) && Arc(g, order[p1], order[p2]) && Arc(g, order[p2], order[p3]);
    assert p0 == 0 && p1 == 1 && p2 == 2 && p3 == 3;
  }

  /** The sample has no cycle: 4 - u is a rank falling along every edge. */
  lemma SampleAcyclic()
    ensures !HasCycle(SampleGraph())
  {
    var g := SampleGraph();
    SampleArcs();
    var rank := map[0 := 4, 1 := 3, 2 := 2, 3 := 1];
    forall u, w | Arc(g, u, w) ensures u in rank && w in rank && rank[w] < rank[u] {
      assert (u, w) in {(0, 1), (0, 2), (1, 2), (2, 3), (0, 3)};
    }
    RankForbidsCycle(g, rank);
  }

  /** The expectation of the topologicalSort test: the sample sorts to 0, 1, 2, 3. */
  lemma SampleSort()
    ensures TopoSpec(SampleGraph(), 4) == Ok([0, 1, 2, 3])
  {
    SampleArcs();
    SampleAcyclic();
    TopoSortCorrect(SampleGraph(), 4);
    SampleOrderUnique(TopoSpec(SampleGraph(), 4).value);
  }
}

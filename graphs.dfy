/** The abstract directed graph an incidence matrix denotes, and how each
    matrix edit changes it. */
module Graphs {
  import opened Incidences
  import opened Tables

  /** A snapshot of a matrix of markers with the two counters kept beside it
      (numberOfVertices may drop below the number of rows, and even below 0). */
  datatype Mat = Mat(rows: seq<seq<Incidence>>, nV: int, nE: nat)

  /** The marker at row j, column i; NONE outside the matrix. */
  function Cell(g: Mat, j: int, i: int): Incidence
  {
    if 0 <= j < |g.rows| && 0 <= i < |g.rows[j]| then g.rows[j][i] else NONE
  }

  /** At least nV rows, every row (stale ones included) with exactly nE cells. */
  ghost predicate Fits(g: Mat)
  {
    g.nV <= |g.rows| && forall j :: 0 <= j < |g.rows| ==> |g.rows[j]| == g.nE
  }

  /** Every column holds at most one SOURCE and at most one TARGET. */
  ghost predicate Proper(g: Mat)
  {
    && (forall i, j1, j2 :: 0 <= i < g.nE && Cell(g, j1, i) == SOURCE && Cell(g, j2, i) == SOURCE ==> j1 == j2)
    && (forall i, j1, j2 :: 0 <= i < g.nE && Cell(g, j1, i) == TARGET && Cell(g, j2, i) == TARGET ==> j1 == j2)
  }

  /** Every column holds a SOURCE. */
  ghost predicate Sourced(g: Mat)
  {
    forall i :: 0 <= i < g.nE ==> HasSource(g, i)
  }

  ghost predicate HasSource(g: Mat, i: int)
  {
    exists j :: 0 <= j < |g.rows| && Cell(g, j, i) == SOURCE
  }

  /** Column i has its SOURCE at s and its TARGET at t. */
  predicate Joins(g: Mat, i: int, s: int, t: int)
  {
    Cell(g, s, i) == SOURCE && Cell(g, t, i) == TARGET
  }

  /** No two columns join the same pair of rows. */
  ghost predicate Unique(g: Mat)
  {
    forall i1, i2, s, t :: 0 <= i1 < g.nE && 0 <= i2 < g.nE && Joins(g, i1, s, t) && Joins(g, i2, s, t) ==> i1 == i2
  }

  /** The shape every public operation keeps (removeVertex included). */
  ghost predicate Consistent(g: Mat)
  {
    Fits(g) && Proper(g) && Sourced(g) && Unique(g)
  }

  /** Consistent, with one row per counted vertex. */
  ghost predicate Valid(g: Mat)
  {
    Consistent(g) && |g.rows| == g.nV
  }

  /** The edge (s, t) of the denoted graph: both ends are vertices and some column joins them. */
  ghost predicate Arc(g: Mat, s: int, t: int)
  {
    0 <= s < g.nV && 0 <= t < g.nV && exists i :: 0 <= i < g.nE && Joins(g, i, s, t)
  }

  /** The vertex set {0 .. n-1}. */
  ghost function Vertices(n: int): (r: set<int>)
    ensures forall v :: v in r <==> 0 <= v < n
  {
    if n <= 0 then {} else Vertices(n - 1) + {n - 1}
  }

  /** The heads of the edges leaving v. */
  ghost function Succ(g: Mat, v: int): set<int>
  {
    set t | 0 <= t < g.nV && Arc(g, v, t)
  }

  /** The edge set of the denoted graph. */
  ghost function EdgeSet(g: Mat): set<(int, int)>
  {
    set s, t | 0 <= s < g.nV && 0 <= t < g.nV && Arc(g, s, t) :: (s, t)
  }

  lemma InEdgeSet(g: Mat, s: int, t: int)
    ensures (s, t) in EdgeSet(g) <==> Arc(g, s, t)
  {
    if Arc(g, s, t) {
      assert (s, t) in EdgeSet(g);
    }
  }

  lemma VerticesSize(n: nat)
    ensures |Vertices(n)| == n
  {
    if n > 0 {
      assert Vertices(n) == Vertices(n - 1) + {n - 1};
      VerticesSize(n - 1);
    }
  }

  // ---------------------------------------------------------------- paths and cycles

  /** p is a walk in the graph: its first element is a vertex and consecutive elements are edges. */
  ghost predicate IsPath(g: Mat, p: seq<int>)
  {
    |p| >= 1 && 0 <= p[0] < g.nV && forall k :: 0 <= k < |p| - 1 ==> Arc(g, p[k], p[k + 1])
  }

  ghost predicate Reachable(g: Mat, a: int, b: int)
  {
    exists p :: IsPath(g, p) && p[0] == a && p[|p| - 1] == b
  }

  /** A closed walk of at least one edge. */
  ghost predicate IsCycle(g: Mat, p: seq<int>)
  {
    IsPath(g, p) && |p| >= 2 && p[0] == p[|p| - 1]
  }

  ghost predicate HasCycle(g: Mat)
  {
    exists p :: IsCycle(g, p)
  }

  /** No value occurs twice in s. */
  ghost predicate Distinct(s: seq<int>)
  {
    forall i, j :: 0 <= i < j < |s| ==> s[i] != s[j]
  }

  lemma PathInRange(g: Mat, p: seq<int>, k: int)
    requires IsPath(g, p) && 0 <= k < |p|
    ensures 0 <= p[k] < g.nV
  {
    if k > 0 {
      assert Arc(g, p[k - 1], p[k]);
    }
  }

  lemma ReachRefl(g: Mat, a: int)
    requires 0 <= a < g.nV
    ensures Reachable(g, a, a)
  {
    assert IsPath(g, [a]);
  }

  lemma ReachPrepend(g: Mat, a: int, b: int, c: int)
    requires Arc(g, a, b) && Reachable(g, b, c)
    ensures Reachable(g, a, c)
  {
    var p :| IsPath(g, p) && p[0] == b && p[|p| - 1] == c;
    var q := [a] + p;
    assert forall k :: 1 <= k < |q| - 1 ==> q[k] == p[k - 1] && q[k + 1] == p[k];
    assert IsPath(g, q);
  }

  lemma ReachAppend(g: Mat, a: int, b: int, c: int)
    requires Reachable(g, a, b) && Arc(g, b, c)
    ensures Reachable(g, a, c)
  {
    var p :| IsPath(g, p) && p[0] == a && p[|p| - 1] == b;
    var q := p + [c];
    assert IsPath(g, q);
  }

  /** A suffix of a walk is a walk. */
  lemma PathSuffix(g: Mat, p: seq<int>, k: int)
    requires IsPath(g, p) && 0 <= k < |p|
    ensures IsPath(g, p[k..])
  {
    PathInRange(g, p, k);
    var q := p[k..];
    forall m | 0 <= m < |q| - 1 ensures Arc(g, q[m], q[m + 1]) {
      assert q[m] == p[k + m] && q[m + 1] == p[k + m + 1];
    }
  }

  /** A walk extended by an edge out of its last vertex is a walk. */
  lemma PathAppend(g: Mat, p: seq<int>, x: int)
    requires IsPath(g, p) && Arc(g, p[|p| - 1], x)
    ensures IsPath(g, p + [x])
  {
    var q := p + [x];
    forall m | 0 <= m < |q| - 1 ensures Arc(g, q[m], q[m + 1]) {
      if m < |p| - 1 {
        assert q[m] == p[m] && q[m + 1] == p[m + 1];
      }
    }
  }

  /** A set that holds a and the successors of each of its members holds everything a reaches. */
  lemma {:induction false} ClosedHoldsPath(g: Mat, s: set<int>, p: seq<int>)
    requires IsPath(g, p) && p[0] in s
    requires forall u :: u in s ==> Succ(g, u) <= s
    ensures p[|p| - 1] in s
  {
    if |p| > 1 {
      var q := p[..|p| - 1];
      assert IsPath(g, q);
      ClosedHoldsPath(g, s, q);
      assert Arc(g, p[|p| - 2], p[|p| - 1]);
      assert p[|p| - 1] in Succ(g, p[|p| - 2]);
    }
  }

  lemma ClosedHoldsReachable(g: Mat, s: set<int>, a: int, b: int)
    requires a in s && Reachable(g, a, b)
    requires forall u :: u in s ==> Succ(g, u) <= s
    ensures b in s
  {
    var p :| IsPath(g, p) && p[0] == a && p[|p| - 1] == b;
    ClosedHoldsPath(g, s, p);
  }

  /** Along a walk the rank strictly falls, so the last rank is below the first. */
  lemma {:induction false} RankFallsAlongPath(g: Mat, rank: map<int, int>, p: seq<int>)
    requires IsPath(g, p) && |p| >= 2
    requires forall u, w :: Arc(g, u, w) ==> u in rank && w in rank && rank[w] < rank[u]
    ensures p[0] in rank && p[|p| - 1] in rank && rank[p[|p| - 1]] < rank[p[0]]
  {
    assert Arc(g, p[0], p[1]);
    if |p| > 2 {
      var q := p[1..];
      assert IsPath(g, q) by {
        forall k | 0 <= k < |q| - 1 ensures Arc(g, q[k], q[k + 1]) {
          assert q[k] == p[k + 1] && q[k + 1] == p[k + 2];
        }
      }
      RankFallsAlongPath(g, rank, q);
    }
  }

  /** A ranking that strictly falls along every edge rules out cycles. */
  lemma RankForbidsCycle(g: Mat, rank: map<int, int>)
    requires forall u, w :: Arc(g, u, w) ==> u in rank && w in rank && rank[w] < rank[u]
    ensures !HasCycle(g)
  {
    if HasCycle(g) {
      var p :| IsCycle(g, p);
      RankFallsAlongPath(g, rank, p);
    }
  }

  /** Pigeonhole: a sequence longer than the set it draws from repeats an element. */
  lemma {:induction false} Repeats(p: seq<int>, s: set<int>) returns (a: int, b: int)
    requires forall k :: 0 <= k < |p| ==> p[k] in s
    requires |p| > |s|
    ensures 0 <= a < b < |p| && p[a] == p[b]
  {
    var x := p[|p| - 1];
    if k :| 0 <= k < |p| - 1 && p[k] == x {
      a, b := k, |p| - 1;
    } else {
      var q := p[..|p| - 1];
      assert forall k :: 0 <= k < |q| ==> q[k] in s - {x};
      a, b := Repeats(q, s - {x});
    }
  }

  /** Some member of s is the tail of an edge into x. */
  ghost predicate HasPred(g: Mat, s: set<int>, x: int)
  {
    exists u :: u in s && Arc(g, u, x)
  }

  /** A walk of n+1 vertices of s ending at w, taken backwards along predecessors in s. */
  lemma {:induction false} WalkBack(g: Mat, s: set<int>, w: int, n: nat) returns (p: seq<int>)
    requires w in s
    requires forall x :: x in s ==> 0 <= x < g.nV
    requires forall x {:trigger HasPred(g, s, x)} :: x in s ==> HasPred(g, s, x)
    ensures |p| == n + 1 && IsPath(g, p) && p[|p| - 1] == w
    ensures forall k :: 0 <= k < |p| ==> p[k] in s
    decreases n
  {
    if n == 0 {
      p := [w];
    } else {
      assert HasPred(g, s, w);
      var u :| u in s && Arc(g, u, w);
      var q := WalkBack(g, s, u, n - 1);
      p := q + [w];
      forall k | 0 <= k < |p| - 1 ensures Arc(g, p[k], p[k + 1]) {
        if k < |q| - 1 {
          assert p[k] == q[k] && p[k + 1] == q[k + 1];
        } else {
          assert p[k] == u && p[k + 1] == w;
        }
      }
      forall k | 0 <= k < |p| ensures p[k] in s {
        if k < |q| {
          assert p[k] == q[k];
        }
      }
    }
  }

  /** If every member of a nonempty set of vertices has a predecessor in the set, the graph has a cycle. */
  lemma PredecessorsGiveCycle(g: Mat, s: set<int>)
    requires s != {}
    requires forall x :: x in s ==> 0 <= x < g.nV
    requires forall x {:trigger HasPred(g, s, x)} :: x in s ==> HasPred(g, s, x)
    ensures HasCycle(g)
  {
    assert exists w :: w in s by {
      if forall w :: w !in s {
        assert false;
      }
    }
    var w :| w in s;
    var p := WalkBack(g, s, w, |s|);
    var a, b := Repeats(p, s);
    var c := p[a..b + 1];
    forall k | 0 <= k < |c| - 1 ensures Arc(g, c[k], c[k + 1]) {
      assert c[k] == p[a + k] && c[k + 1] == p[a + k + 1];
    }
    PathInRange(g, p, a);
    assert IsCycle(g, c);
  }

  /** h has every edge of g turned around, and no vertex g lacks. */
  ghost predicate Transposed(g: Mat, h: Mat)
  {
    (h.nV <= g.nV || h.nV == 0) && forall a, b :: Arc(h, a, b) <==> Arc(g, b, a)
  }

  /** A walk of the transposed graph, read backwards, is a walk of the graph. */
  lemma {:induction false} TransposedPath(g: Mat, h: Mat, p: seq<int>)
    requires Transposed(g, h) && IsPath(h, p)
    ensures Reachable(g, p[|p| - 1], p[0])
    decreases |p|
  {
    if |p| == 1 {
      ReachRefl(g, p[0]);
    } else {
      var q := p[..|p| - 1];
      forall k | 0 <= k < |q| - 1 ensures Arc(h, q[k], q[k + 1]) {
        assert q[k] == p[k] && q[k + 1] == p[k + 1];
      }
      TransposedPath(g, h, q);
      assert Arc(h, p[|p| - 2], p[|p| - 1]);
      ReachPrepend(g, p[|p| - 1], p[|p| - 2], p[0]);
    }
  }

  lemma TransposedReach(g: Mat, h: Mat, a: int, b: int)
    requires Transposed(g, h) && Reachable(h, a, b)
    ensures Reachable(g, b, a)
  {
    var p :| IsPath(h, p) && p[0] == a && p[|p| - 1] == b;
    TransposedPath(g, h, p);
  }

  /** A transpose with the same vertices (none, when the count is negative) is
      transposed back by the graph itself. */
  lemma TransposedBack(g: Mat, h: Mat)
    requires Transposed(g, h) && h.nV == if g.nV < 0 then 0 else g.nV
    ensures Transposed(h, g)
  {
  }

  lemma ReachTrans(g: Mat, a: int, b: int, c: int)
    requires Reachable(g, a, b) && Reachable(g, b, c)
    ensures Reachable(g, a, c)
  {
    var p :| IsPath(g, p) && p[0] == a && p[|p| - 1] == b;
    var q :| IsPath(g, q) && q[0] == b && q[|q| - 1] == c;
    var w := p + q[1..];
    forall k | 0 <= k < |w| - 1 ensures Arc(g, w[k], w[k + 1]) {
      if k < |p| - 1 {
        assert w[k] == p[k] && w[k + 1] == p[k + 1];
      } else {
        assert w[k] == q[k - |p| + 1] && w[k + 1] == q[k - |p| + 2];
      }
    }
    PathInRange(g, p, 0);
    assert IsPath(g, w);
  }

  /** a and b lie on a common cycle, or are the same vertex: the relation whose
      classes are the strongly connected components. */
  ghost predicate MutuallyReachable(g: Mat, a: int, b: int)
  {
    Reachable(g, a, b) && Reachable(g, b, a)
  }

  // ---------------------------------------------------------------- the matrix edits

  /** The snapshot after the vertex count alone drops to n: the shape is kept and the
      vertices from n on leave the denoted graph. */
  lemma FewerVertices(g: Mat, n: int)
    requires n <= g.nV
    ensures Consistent(g) ==> Consistent(Mat(g.rows, n, g.nE))
    ensures forall a, b :: Arc(Mat(g.rows, n, g.nE), a, b) <==> Arc(g, a, b) && a < n && b < n
  {
    var h := Mat(g.rows, n, g.nE);
    assert forall j, i :: Cell(h, j, i) == Cell(g, j, i);
    assert forall i, s, t :: Joins(h, i, s, t) == Joins(g, i, s, t);
    assert forall i :: HasSource(h, i) == HasSource(g, i);
  }

  /** The snapshot after addVertex: one more row of NONE cells. */
  function WithRow(g: Mat): Mat
  {
    Mat(g.rows + [Filled(g.nE, NONE)], g.nV + 1, g.nE)
  }

  /** The snapshot after addEdge appends a column for (s, t). */
  function WithColumn(g: Mat, s: int, t: int): Mat
    requires 0 <= g.nV <= |g.rows|
  {
    Mat(PushColumn(g.rows, NewColumn(g.nV, s, t, SOURCE, TARGET, NONE)), g.nV, g.nE + 1)
  }

  /** The snapshot after removeEdge deletes column c from the rows below limit. */
  function WithoutColumn(g: Mat, limit: int, c: nat): Mat
    requires c < g.nE
  {
    Mat(DropColumn(g.rows, limit, c), g.nV, g.nE - 1)
  }

  lemma WithRowCells(g: Mat)
    requires Fits(g)
    ensures forall j, i :: Cell(WithRow(g), j, i) == (if j == |g.rows| then NONE else Cell(g, j, i))
  {
  }

  /** One more vertex row on a valid matrix keeps it valid and adds no edge. */
  lemma WithRowKeepsEdges(g: Mat)
    requires Valid(g)
    ensures Valid(WithRow(g))
    ensures forall a, b :: Arc(WithRow(g), a, b) <==> Arc(g, a, b)
    ensures EdgeSet(WithRow(g)) == EdgeSet(g)
  {
    var h := WithRow(g);
    WithRowCells(g);
    assert Sourced(h) by {
      forall i | 0 <= i < h.nE ensures HasSource(h, i) {
        assert HasSource(g, i);
        var j :| 0 <= j < |g.rows| && Cell(g, j, i) == SOURCE;
        assert Cell(h, j, i) == SOURCE;
      }
    }
    assert Unique(h) by {
      forall i1, i2, a, b | 0 <= i1 < h.nE && 0 <= i2 < h.nE && Joins(h, i1, a, b) && Joins(h, i2, a, b)
        ensures i1 == i2
      {
        assert Joins(g, i1, a, b) && Joins(g, i2, a, b);
      }
    }
    forall a, b ensures Arc(h, a, b) <==> Arc(g, a, b) {
      if Arc(h, a, b) {
        var i :| 0 <= i < h.nE && Joins(h, i, a, b);
        assert Joins(g, i, a, b);
      }
      if Arc(g, a, b) {
        var i :| 0 <= i < g.nE && Joins(g, i, a, b);
        assert Joins(h, i, a, b);
      }
    }
  }

  /** One more row on a consistent matrix keeps it consistent. */
  lemma WithRowConsistent(g: Mat)
    requires Consistent(g)
    ensures Consistent(WithRow(g))
  {
    var h := WithRow(g);
    WithRowCells(g);
    assert Sourced(h) by {
      forall i | 0 <= i < h.nE ensures HasSource(h, i) {
        assert HasSource(g, i);
        var j :| 0 <= j < |g.rows| && Cell(g, j, i) == SOURCE;
        assert Cell(h, j, i) == SOURCE;
      }
    }
    assert Unique(h) by {
      forall i1, i2, a, b | 0 <= i1 < h.nE && 0 <= i2 < h.nE && Joins(h, i1, a, b) && Joins(h, i2, a, b)
        ensures i1 == i2
      {
        assert Joins(g, i1, a, b) && Joins(g, i2, a, b);
      }
    }
  }

  lemma WithColumnCells(g: Mat, s: int, t: int)
    requires Fits(g) && 0 <= g.nV == |g.rows|
    ensures Fits(WithColumn(g, s, t))
    ensures forall j, i :: i != g.nE ==> Cell(WithColumn(g, s, t), j, i) == Cell(g, j, i)
    ensures forall j :: Cell(WithColumn(g, s, t), j, g.nE) ==
              (if 0 <= j < g.nV then (if j == s then SOURCE else if j == t then TARGET else NONE) else NONE)
  {
    var h := WithColumn(g, s, t);
    forall j, i | i != g.nE ensures Cell(h, j, i) == Cell(g, j, i) {
      if 0 <= j < |g.rows| && 0 <= i < |g.rows[j]| {
        assert h.rows[j] == g.rows[j] + [NewColumn(g.nV, s, t, SOURCE, TARGET, NONE)[j]];
      }
    }
  }

  /** Appending the column for a pair not yet joined keeps a valid matrix valid and adds
      exactly the edge (s, t), unless s == t: a self-loop column holds only a SOURCE and adds nothing. */
  lemma WithColumnEdges(g: Mat, s: int, t: int)
    requires Valid(g) && 0 <= s < g.nV && 0 <= t < g.nV
    requires forall i :: 0 <= i < g.nE ==> !Joins(g, i, s, t)
    ensures Valid(WithColumn(g, s, t))
    ensures forall a, b :: Arc(WithColumn(g, s, t), a, b) <==> Arc(g, a, b) || (a == s && b == t && s != t)
    ensures EdgeSet(WithColumn(g, s, t)) == EdgeSet(g) + (if s != t then {(s, t)} else {})
  {
    var h := WithColumn(g, s, t);
    WithColumnCells(g, s, t);
    assert Proper(h);
    assert Sourced(h) by {
      forall i | 0 <= i < h.nE ensures HasSource(h, i) {
        if i == g.nE {
          assert Cell(h, s, i) == SOURCE;
        } else {
          assert HasSource(g, i);
          var j :| 0 <= j < |g.rows| && Cell(g, j, i) == SOURCE;
          assert Cell(h, j, i) == SOURCE;
        }
      }
    }
    assert Unique(h) by {
      forall i1, i2, a, b | 0 <= i1 < h.nE && 0 <= i2 < h.nE && Joins(h, i1, a, b) && Joins(h, i2, a, b)
        ensures i1 == i2
      {
        if i1 == g.nE || i2 == g.nE {
          assert a == s && b == t;
          if i1 < g.nE {
            assert Joins(g, i1, a, b);
          }
          if i2 < g.nE {
            assert Joins(g, i2, a, b);
          }
        } else {
          assert Joins(g, i1, a, b) && Joins(g, i2, a, b);
        }
      }
    }
    forall a, b ensures Arc(h, a, b) <==> Arc(g, a, b) || (a == s && b == t && s != t) {
      if Arc(h, a, b) {
        var i :| 0 <= i < h.nE && Joins(h, i, a, b);
        if i < g.nE {
          assert Joins(g, i, a, b);
        }
      }
      if Arc(g, a, b) {
        var i :| 0 <= i < g.nE && Joins(g, i, a, b);
        assert Joins(h, i, a, b);
      }
      if a == s && b == t && s != t {
        assert Joins(h, g.nE, a, b);
      }
    }
    forall e ensures e in EdgeSet(h) <==> e in EdgeSet(g) + (if s != t then {(s, t)} else {}) {
      InEdgeSet(h, e.0, e.1);
      InEdgeSet(g, e.0, e.1);
    }
  }

  lemma WithoutColumnCells(g: Mat, c: nat)
    requires Fits(g) && c < g.nE
    ensures Fits(WithoutColumn(g, |g.rows|, c))
    ensures forall j, i :: 0 <= i < g.nE - 1 ==>
              Cell(WithoutColumn(g, |g.rows|, c), j, i) == Cell(g, j, if i < c then i else i + 1)
    ensures forall j, i :: !(0 <= i < g.nE - 1) ==> Cell(WithoutColumn(g, |g.rows|, c), j, i) == NONE
  {
  }

  /** Deleting the one column that joins (s, t) from every row keeps a consistent matrix
      consistent and removes exactly the edge (s, t). */
  lemma WithoutColumnEdges(g: Mat, c: nat, s: int, t: int)
    requires Consistent(g) && c < g.nE && Joins(g, c, s, t)
    ensures Consistent(WithoutColumn(g, |g.rows|, c))
    ensures forall a, b :: Arc(WithoutColumn(g, |g.rows|, c), a, b) <==> Arc(g, a, b) && (a, b) != (s, t)
    ensures EdgeSet(WithoutColumn(g, |g.rows|, c)) == EdgeSet(g) - {(s, t)}
  {
    var h := WithoutColumn(g, |g.rows|, c);
    WithoutColumnCells(g, c);
    assert Proper(h) by {
      forall i, j1, j2 | 0 <= i < h.nE && Cell(h, j1, i) == SOURCE && Cell(h, j2, i) == SOURCE ensures j1 == j2 {
        var i' := if i < c then i else i + 1;
        assert Cell(g, j1, i') == SOURCE && Cell(g, j2, i') == SOURCE;
      }
      forall i, j1, j2 | 0 <= i < h.nE && Cell(h, j1, i) == TARGET && Cell(h, j2, i) == TARGET ensures j1 == j2 {
        var i' := if i < c then i else i + 1;
        assert Cell(g, j1, i') == TARGET && Cell(g, j2, i') == TARGET;
      }
    }
    assert Sourced(h) by {
      forall i | 0 <= i < h.nE ensures HasSource(h, i) {
        var i' := if i < c then i else i + 1;
        assert HasSource(g, i');
        var j :| 0 <= j < |g.rows| && Cell(g, j, i') == SOURCE;
        assert Cell(h, j, i) == SOURCE;
      }
    }
    assert Unique(h) by {
      forall i1, i2, a, b | 0 <= i1 < h.nE && 0 <= i2 < h.nE && Joins(h, i1, a, b) && Joins(h, i2, a, b)
        ensures i1 == i2
      {
        var i1' := if i1 < c then i1 else i1 + 1;
        var i2' := if i2 < c then i2 else i2 + 1;
        assert Joins(g, i1', a, b) && Joins(g, i2', a, b);
      }
    }
    forall a, b ensures Arc(h, a, b) <==> Arc(g, a, b) && (a, b) != (s, t) {
      if Arc(h, a, b) {
        var i :| 0 <= i < h.nE && Joins(h, i, a, b);
        var i' := if i < c then i else i + 1;
        assert Joins(g, i', a, b);
        assert i' != c;
        if (a, b) == (s, t) {
          assert false;
        }
      }
      if Arc(g, a, b) && (a, b) != (s, t) {
        var i :| 0 <= i < g.nE && Joins(g, i, a, b);
        assert i != c;
        var i' := if i < c then i else i - 1;
        assert Joins(h, i', a, b);
      }
    }
    forall e ensures e in EdgeSet(h) <==> e in EdgeSet(g) - {(s, t)} {
      InEdgeSet(h, e.0, e.1);
      InEdgeSet(g, e.0, e.1);
    }
  }
}

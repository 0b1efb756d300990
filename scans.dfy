/** The column scans every query of the incidence matrix is built from:
    the duplicate check of addEdge / containsEdge / isAdjacent / removeEdge,
    the adjacency scan of getAdjacent and the two-marker scan of getEdges
    and getTranspose. They work on a snapshot of the matrix. */
module Scans {
  import opened Incidences
  import opened Errors
  import opened Graphs

  /** The first column at or after `from` that joins s to t, or nE when there is none. */
  function FirstJoin(g: Mat, s: int, t: int, from: nat): (r: nat)
    requires from <= g.nE
    ensures from <= r <= g.nE
    ensures r < g.nE ==> Joins(g, r, s, t)
    ensures forall i :: from <= i < r ==> !Joins(g, i, s, t)
    decreases g.nE - from
  {
    if from == g.nE then g.nE
    else if Joins(g, from, s, t) then from
    else FirstJoin(g, s, t, from + 1)
  }

  /** The index the duplicate check stops at: the first column joining s to t, or -1. */
  function ColumnOf(g: Mat, s: int, t: int): (r: int)
    ensures -1 <= r < g.nE
    ensures r == -1 <==> forall i :: 0 <= i < g.nE ==> !Joins(g, i, s, t)
    ensures r >= 0 ==> Joins(g, r, s, t) && forall i :: 0 <= i < r ==> !Joins(g, i, s, t)
  {
    var f := FirstJoin(g, s, t, 0);
    if f == g.nE then -1 else f
  }

  /** What the scan `matrix.get(s).get(i) == SOURCE && matrix.get(t).get(i) == TARGET`
      over all columns yields for arbitrary s and t: a row index outside the matrix
      throws the first time it is read, and t is read only where s holds a SOURCE. */
  ghost function JoinScan(g: Mat, s: int, t: int): Result<int>
  {
    if g.nE == 0 then Ok(-1)
    else if !(0 <= s < |g.rows|) then Err(IndexOutOfBounds)
    else if !(0 <= t < |g.rows|) then
      (if exists i :: 0 <= i < g.nE && Cell(g, s, i) == SOURCE then Err(IndexOutOfBounds) else Ok(-1))
    else Ok(ColumnOf(g, s, t))
  }

  /** With both rows inside the matrix the scan never throws and finds ColumnOf. */
  lemma JoinScanInRange(g: Mat, s: int, t: int)
    requires 0 <= s < |g.rows| && 0 <= t < |g.rows|
    ensures JoinScan(g, s, t) == Ok(ColumnOf(g, s, t))
    ensures JoinScan(g, s, t) == Ok(-1) <==> forall i :: 0 <= i < g.nE ==> !Joins(g, i, s, t)
  {
  }

  /** The loop shared by addEdge, containsEdge, isAdjacent and removeEdge. */
  method FindColumn(g: Mat, s: int, t: int) returns (r: Result<int>)
    requires Fits(g)
    ensures r == JoinScan(g, s, t)
  {
    var i := 0;
    while i < g.nE
      invariant 0 <= i <= g.nE
      invariant forall k :: 0 <= k < i ==> !Joins(g, k, s, t)
      invariant 0 < i ==> 0 <= s < |g.rows|
      invariant !(0 <= t < |g.rows|) ==> forall k :: 0 <= k < i ==> Cell(g, s, k) != SOURCE
    {
      if !(0 <= s < |g.rows|) {
        return Err(IndexOutOfBounds);
      }
      if g.rows[s][i] == SOURCE {
        if !(0 <= t < |g.rows|) {
          assert Cell(g, s, i) == SOURCE;
          return Err(IndexOutOfBounds);
        }
        if g.rows[t][i] == TARGET {
          assert Joins(g, i, s, t);
          assert FirstJoin(g, s, t, 0) == i;
          return Ok(i);
        }
      }
      i := i + 1;
    }
    return Ok(-1);
  }

  /** One of the first i columns joins s to t. */
  ghost predicate JoinedBelow(g: Mat, i: int, s: int, t: int)
  {
    exists k :: 0 <= k < i && Joins(g, k, s, t)
  }

  /** The heads reached through the first i columns that v sources. */
  ghost function SuccBelow(g: Mat, v: int, i: int): set<int>
  {
    set t | 0 <= t < g.nV && JoinedBelow(g, i, v, t)
  }

  lemma SuccBelowNext(g: Mat, v: int, i: int)
    ensures forall t :: t in SuccBelow(g, v, i + 1) <==> t in SuccBelow(g, v, i) || (0 <= t < g.nV && Joins(g, i, v, t))
  {
    forall t | 0 <= t < g.nV && Joins(g, i, v, t) ensures t in SuccBelow(g, v, i + 1) {
      assert JoinedBelow(g, i + 1, v, t);
    }
    forall t | t in SuccBelow(g, v, i) ensures t in SuccBelow(g, v, i + 1) {
      assert JoinedBelow(g, i, v, t);
      var k :| 0 <= k < i && Joins(g, k, v, t);
      assert JoinedBelow(g, i + 1, v, t);
    }
  }

  /** The loop of getAdjacent: for every column v sources, the first row below nV
      holding its TARGET. */
  method Adjacent(g: Mat, v: int) returns (adj: set<int>)
    requires Fits(g) && Proper(g) && 0 <= v < g.nV
    ensures adj == Succ(g, v)
    ensures forall t :: t in adj <==> Arc(g, v, t)
  {
    adj := {};
    var i := 0;
    while i < g.nE
      invariant 0 <= i <= g.nE
      invariant adj == SuccBelow(g, v, i)
    {
      if g.rows[v][i] == SOURCE {
        var j := 0;
        while j < g.nV && g.rows[j][i] != TARGET
          invariant 0 <= j <= g.nV
          invariant forall k :: 0 <= k < j ==> Cell(g, k, i) != TARGET
        {
          j := j + 1;
        }
        if j < g.nV {
          SuccBelowNext(g, v, i);
          assert Cell(g, j, i) == TARGET;
          forall t | 0 <= t < g.nV && Joins(g, i, v, t) ensures t == j {
            assert Cell(g, t, i) == TARGET;
          }
          assert Joins(g, i, v, j);
          adj := adj + {j};
        } else {
          assert forall t :: 0 <= t < g.nV ==> !Joins(g, i, v, t);
          SuccBelowNext(g, v, i);
        }
      } else {
        assert forall t :: !Joins(g, i, v, t);
        SuccBelowNext(g, v, i);
      }
      i := i + 1;
    }
    assert Succ(g, v) == SuccBelow(g, v, g.nE);
  }

  /** The inner loop of getEdges and getTranspose over one column i: the rows below nV
      holding its SOURCE and its TARGET (a later row overwrites an earlier one). */
  method ColumnEnds(g: Mat, i: int) returns (src: Option<int>, tgt: Option<int>)
    requires Fits(g) && Proper(g) && 0 <= i < g.nE
    ensures forall j :: src == Some(j) <==> 0 <= j < g.nV && Cell(g, j, i) == SOURCE
    ensures forall j :: tgt == Some(j) <==> 0 <= j < g.nV && Cell(g, j, i) == TARGET
  {
    src, tgt := None, None;
    var j := 0;
    while j < g.nV
      invariant 0 <= j && (j <= g.nV || j == 0)
      invariant forall k :: src == Some(k) <==> 0 <= k < j && Cell(g, k, i) == SOURCE
      invariant forall k :: tgt == Some(k) <==> 0 <= k < j && Cell(g, k, i) == TARGET
    {
      if g.rows[j][i] == SOURCE {
        src := Some(j);
      } else if g.rows[j][i] == TARGET {
        tgt := Some(j);
      }
      j := j + 1;
    }
  }

  /** The pairs joined by the first i columns. */
  ghost function EdgesBelow(g: Mat, i: int): set<(int, int)>
  {
    set s, t | 0 <= s < g.nV && 0 <= t < g.nV && JoinedBelow(g, i, s, t) :: (s, t)
  }

  lemma EdgesBelowNext(g: Mat, i: int)
    ensures forall s, t :: (s, t) in EdgesBelow(g, i + 1) <==>
      (s, t) in EdgesBelow(g, i) || (0 <= s < g.nV && 0 <= t < g.nV && Joins(g, i, s, t))
  {
    forall s, t | 0 <= s < g.nV && 0 <= t < g.nV && Joins(g, i, s, t)
      ensures (s, t) in EdgesBelow(g, i + 1)
    {
      assert JoinedBelow(g, i + 1, s, t);
    }
    forall s, t | (s, t) in EdgesBelow(g, i)
      ensures (s, t) in EdgesBelow(g, i + 1)
    {
      assert JoinedBelow(g, i, s, t);
      var k :| 0 <= k < i && Joins(g, k, s, t);
      assert JoinedBelow(g, i + 1, s, t);
    }
  }

  /** What one column adds to the pairs: its ends, when ColumnEnds found both. */
  lemma ColumnStep(g: Mat, i: int, src: Option<int>, tgt: Option<int>)
    requires Fits(g) && Proper(g) && 0 <= i < g.nE
    requires forall j :: src == Some(j) <==> 0 <= j < g.nV && Cell(g, j, i) == SOURCE
    requires forall j :: tgt == Some(j) <==> 0 <= j < g.nV && Cell(g, j, i) == TARGET
    ensures EdgesBelow(g, i + 1) == EdgesBelow(g, i) + (if src.Some? && tgt.Some? then {(src.value, tgt.value)} else {})
    ensures src.Some? && tgt.Some? ==> src.value != tgt.value
  {
    EdgesBelowNext(g, i);
    if src.Some? && tgt.Some? {
      forall s, t ensures (s, t) in EdgesBelow(g, i + 1) <==> (s, t) in EdgesBelow(g, i) + {(src.value, tgt.value)} {
        if 0 <= s < g.nV && 0 <= t < g.nV && Joins(g, i, s, t) {
          assert src == Some(s) && tgt == Some(t);
        }
      }
    } else {
      assert forall s, t :: 0 <= s < g.nV && 0 <= t < g.nV ==> !Joins(g, i, s, t);
      assert EdgesBelow(g, i + 1) == EdgesBelow(g, i);
    }
  }

  /** All columns together give the edge set. */
  lemma EdgesBelowAll(g: Mat)
    ensures EdgesBelow(g, g.nE) == EdgeSet(g)
  {
    forall e ensures e in EdgesBelow(g, g.nE) <==> e in EdgeSet(g) {
      InEdgeSet(g, e.0, e.1);
      if e in EdgesBelow(g, g.nE) {
        assert JoinedBelow(g, g.nE, e.0, e.1);
      }
    }
  }

  /** The pairs of es, each turned around. */
  ghost function Flipped(es: set<(int, int)>): set<(int, int)>
  {
    set e | e in es :: (e.1, e.0)
  }

  /** A graph whose edges are those of g turned around has the arcs of g reversed. */
  lemma FlippedArcs(g: Mat, h: Mat)
    requires EdgeSet(h) == Flipped(EdgeSet(g))
    ensures forall a, b :: Arc(h, a, b) <==> Arc(g, b, a)
  {
    forall a, b ensures Arc(h, a, b) <==> Arc(g, b, a) {
      InEdgeSet(h, a, b);
      InEdgeSet(g, b, a);
      assert (a, b) in Flipped(EdgeSet(g)) <==> (b, a) in EdgeSet(g);
    }
  }

  /** One more column adds its pair turned around. */
  lemma FlippedStep(g: Mat, i: int, src: Option<int>, tgt: Option<int>)
    requires Fits(g) && Proper(g) && 0 <= i < g.nE
    requires EdgesBelow(g, i + 1) == EdgesBelow(g, i) + (if src.Some? && tgt.Some? then {(src.value, tgt.value)} else {})
    ensures src.Some? && tgt.Some? ==> Flipped(EdgesBelow(g, i + 1)) == Flipped(EdgesBelow(g, i)) + {(tgt.value, src.value)}
    ensures !(src.Some? && tgt.Some?) ==> Flipped(EdgesBelow(g, i + 1)) == Flipped(EdgesBelow(g, i))
  {
    if src.Some? && tgt.Some? {
      var a := EdgesBelow(g, i);
      forall e ensures e in Flipped(a + {(src.value, tgt.value)}) <==> e in Flipped(a) + {(tgt.value, src.value)} {
        if e in Flipped(a + {(src.value, tgt.value)}) {
          var x :| x in a + {(src.value, tgt.value)} && e == (x.1, x.0);
        }
        if e in Flipped(a) {
          var x :| x in a && e == (x.1, x.0);
          assert x in a + {(src.value, tgt.value)};
        }
      }
    }
  }

  /** The loop of getEdges: one pair per column whose SOURCE and TARGET rows are both vertices. */
  method EdgeScan(g: Mat) returns (es: set<(int, int)>)
    requires Fits(g) && Proper(g)
    ensures es == EdgeSet(g)
  {
    es := {};
    var i := 0;
    while i < g.nE
      invariant 0 <= i <= g.nE
      invariant es == EdgesBelow(g, i)
    {
      var src, tgt := ColumnEnds(g, i);
      ColumnStep(g, i, src, tgt);
      if src.Some? && tgt.Some? {
        es := es + {(src.value, tgt.value)};
      }
      i := i + 1;
    }
    EdgesBelowAll(g);
  }
}

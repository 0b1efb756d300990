/** The three-colour visits of the graph: the timestamped recursive DFS, the
    queue-based BFS, the DFS forests, the cycle check and the two passes of
    Kosaraju's algorithm. A VisitResult is a value of four maps threaded
    through the visit; a vertex missing from the colour map is WHITE. */
module Traversal {
  import opened Incidences
  import opened Errors
  import opened Graphs
  import opened Scans

  datatype Color = WHITE | GRAY | BLACK

  /** Colour, parent, discovery time and finishing time of each vertex. */
  datatype Visit = Visit(color: map<int, Color>, parent: map<int, int>, start: map<int, int>, end: map<int, int>)

  function ColorOf(vr: Visit, u: int): Color
  {
    if u in vr.color then vr.color[u] else WHITE
  }

  /** The vertices still WHITE: the measure every visit shrinks. */
  ghost function Whites(g: Mat, vr: Visit): set<int>
  {
    set u | 0 <= u < g.nV && ColorOf(vr, u) == WHITE
  }

  /** The matrix shape the adjacency scan relies on. */
  ghost predicate Ready(g: Mat)
  {
    Fits(g) && Proper(g)
  }

  /** No edge leads from a BLACK vertex to a WHITE one. */
  ghost predicate Closed(g: Mat, vr: Visit)
  {
    forall u, w :: ColorOf(vr, u) == BLACK && Arc(g, u, w) ==> ColorOf(vr, w) != WHITE
  }

  ghost predicate NoGray(vr: Visit)
  {
    forall u :: ColorOf(vr, u) != GRAY
  }

  /** u was WHITE in vr and is coloured in r. */
  ghost predicate Discovered(vr: Visit, r: Visit, u: int)
  {
    ColorOf(vr, u) == WHITE && ColorOf(r, u) != WHITE
  }

  /** A colour, once given, stays; every vertex coloured since vr is BLACK. */
  ghost predicate Settled(vr: Visit, r: Visit)
  {
    && (forall u :: ColorOf(vr, u) != WHITE ==> ColorOf(r, u) == ColorOf(vr, u))
    && (forall u :: Discovered(vr, r, u) ==> ColorOf(r, u) == BLACK)
  }

  /** Every BLACK vertex has a discovery time below its finishing time. */
  ghost predicate Timed(vr: Visit)
  {
    forall u :: ColorOf(vr, u) == BLACK ==> u in vr.start && u in vr.end && vr.start[u] < vr.end[u]
  }

  /** Every vertex with a parent is reached from it by an edge. */
  ghost predicate ParentArcs(g: Mat, vr: Visit)
  {
    forall u :: u in vr.parent ==> Arc(g, vr.parent[u], u)
  }

  /** From a BLACK vertex of a closed colouring without GRAY, everything reachable is BLACK. */
  lemma BlackHoldsReachable(g: Mat, vr: Visit, a: int, b: int)
    requires Closed(g, vr) && NoGray(vr) && ColorOf(vr, a) == BLACK && 0 <= a < g.nV
    requires Reachable(g, a, b)
    ensures ColorOf(vr, b) == BLACK
  {
    var s := set u | 0 <= u < g.nV && ColorOf(vr, u) == BLACK;
    forall u | u in s ensures Succ(g, u) <= s {
      forall t | t in Succ(g, u) ensures t in s {
        assert Arc(g, u, t);
      }
    }
    ClosedHoldsReachable(g, s, a, b);
  }

  /** new VisitResult(graph) followed by initGraph: every vertex WHITE, no parent, no times. */
  method InitGraph(n: int) returns (vr: Visit)
    ensures forall u :: ColorOf(vr, u) == WHITE
    ensures vr.color.Keys == Vertices(n)
    ensures vr.parent == map[] && vr.start == map[] && vr.end == map[]
  {
    vr := Visit(map[], map[], map[], map[]);
    var v := 0;
    while v < n
      invariant 0 <= v && (v <= n || v == 0)
      invariant forall u :: ColorOf(vr, u) == WHITE
      invariant vr.color.Keys == Vertices(v)
      invariant vr.parent == map[] && vr.start == map[] && vr.end == map[]
    {
      var next := vr.(color := vr.color[v := WHITE]);
      forall u ensures ColorOf(next, u) == WHITE {
        if u != v {
          assert ColorOf(next, u) == ColorOf(vr, u);
        }
      }
      vr := next;
      v := v + 1;
    }
  }

  /** Every vertex discovered between vr and r is reachable from v. */
  ghost predicate ReachedFrom(g: Mat, v: int, vr: Visit, r: Visit)
  {
    forall u :: Discovered(vr, r, u) ==> Reachable(g, v, u)
  }

  /** Every vertex discovered between vr and r got both times inside (lo, hi], in order;
      the times of the others stay. */
  ghost predicate TimedIn(vr: Visit, r: Visit, lo: int, hi: int)
  {
    && (forall u :: Discovered(vr, r, u) ==> u in r.start && u in r.end && lo < r.start[u] < r.end[u] <= hi)
    && (forall u :: u in vr.start && !Discovered(vr, r, u) ==> u in r.start && r.start[u] == vr.start[u])
    && (forall u :: u in vr.end && !Discovered(vr, r, u) ==> u in r.end && r.end[u] == vr.end[u])
  }

  /** Parent entries stay, and new ones belong to vertices discovered between vr and r. */
  ghost predicate ParentsKept(vr: Visit, r: Visit)
  {
    && (forall u :: u in vr.parent ==> u in r.parent && r.parent[u] == vr.parent[u])
    && (forall u :: u in r.parent ==> u in vr.parent || Discovered(vr, r, u))
  }

  /** What a visit started at v did between the colourings vr and r while the clock went
      from lo to hi; the clock moved by two per discovered vertex. */
  ghost predicate Grows(g: Mat, v: int, vr: Visit, r: Visit, lo: int, hi: int)
  {
    && Settled(vr, r) && Whites(g, r) <= Whites(g, vr)
    && ReachedFrom(g, v, vr, r) && TimedIn(vr, r, lo, hi) && ParentsKept(vr, r)
    && hi == lo + 2 * (|Whites(g, vr)| - |Whites(g, r)|) && lo <= hi
  }

  /** Two colourings that differ only in parents discover the same vertices. */
  ghost predicate SameColors(a: Visit, b: Visit)
  {
    a.color == b.color && a.start == b.start && a.end == b.end
  }

  lemma SettledStep(a: Visit, b: Visit, b1: Visit, c: Visit)
    requires Settled(a, b) && SameColors(b, b1) && Settled(b1, c)
    ensures Settled(a, c)
  {
    forall u | Discovered(a, c, u) ensures ColorOf(c, u) == BLACK {
      if !Discovered(a, b, u) {
        assert Discovered(b1, c, u);
      }
    }
  }

  lemma ReachStep(g: Mat, v: int, w: int, a: Visit, b: Visit, b1: Visit, c: Visit)
    requires ReachedFrom(g, v, a, b) && SameColors(b, b1) && ReachedFrom(g, w, b1, c) && Arc(g, v, w)
    requires Settled(a, b)
    ensures ReachedFrom(g, v, a, c)
  {
    forall u | Discovered(a, c, u) ensures Reachable(g, v, u) {
      if !Discovered(a, b, u) {
        assert Discovered(b1, c, u);
        ReachPrepend(g, v, w, u);
      }
    }
  }

  lemma TimedStep(a: Visit, b: Visit, b1: Visit, c: Visit, lo: int, m: int, hi: int)
    requires TimedIn(a, b, lo, m) && SameColors(b, b1) && TimedIn(b1, c, m, hi) && lo <= m <= hi
    requires Settled(a, b) && Settled(b1, c)
    ensures TimedIn(a, c, lo, hi)
  {
    forall u | Discovered(a, c, u) ensures u in c.start && u in c.end && lo < c.start[u] < c.end[u] <= hi {
      if !Discovered(a, b, u) {
        assert Discovered(b1, c, u);
      } else {
        assert !Discovered(b1, c, u);
      }
    }
    forall u | u in a.start && !Discovered(a, c, u) ensures u in c.start && c.start[u] == a.start[u] {
      assert !Discovered(a, b, u) && !Discovered(b1, c, u);
    }
    forall u | u in a.end && !Discovered(a, c, u) ensures u in c.end && c.end[u] == a.end[u] {
      assert !Discovered(a, b, u) && !Discovered(b1, c, u);
    }
  }

  lemma ParentsStep(a: Visit, b: Visit, w: int, v: int, c: Visit)
    requires ParentsKept(a, b) && ParentsKept(b.(parent := b.parent[w := v]), c)
    requires Settled(a, b) && Settled(b, c) && w !in a.parent && ColorOf(b, w) == WHITE && ColorOf(c, w) != WHITE
    ensures ParentsKept(a, c)
  {
    var b1 := b.(parent := b.parent[w := v]);
    forall u | u in c.parent ensures u in a.parent || Discovered(a, c, u) {
      if u !in b1.parent {
        assert Discovered(b1, c, u);
      } else if u == w {
        assert Discovered(b1, c, u);
      }
    }
  }

  /** What visitDFS(v) needs: v is a WHITE vertex, no BLACK vertex has a WHITE successor,
      every parent entry is an edge and only v may be WHITE with a parent. */
  ghost predicate DfsPre(g: Mat, v: int, vr: Visit)
  {
    && Ready(g) && 0 <= v < g.nV && ColorOf(vr, v) == WHITE
    && Closed(g, vr) && ParentArcs(g, vr)
    && (forall u :: u in vr.parent && u != v ==> ColorOf(vr, u) != WHITE)
  }

  /** What visitDFS(v) guarantees: v is BLACK with start time + 1 and end clock, the visit
      Grows the colouring, it stays closed, every discovered vertex but v has a parent,
      and every parent entry is an edge. */
  ghost predicate DfsPost(g: Mat, v: int, vr: Visit, r: Visit, time: int, clock: int)
  {
    && ColorOf(r, v) == BLACK && Closed(g, r) && ParentArcs(g, r)
    && Grows(g, v, vr, r, time, clock)
    && v in r.start && r.start[v] == time + 1 && v in r.end && r.end[v] == clock
    && (forall u :: Discovered(vr, r, u) && u != v ==> u in r.parent)
    && (v in r.parent <==> v in vr.parent)
  }

  /** The loop invariant of visitDFS(v) over the adjacency set adj, todo still to do. */
  ghost predicate DfsLoop(g: Mat, v: int, vr1: Visit, r: Visit, lo: int, clock: int, adj: set<int>, todo: set<int>)
  {
    && Ready(g) && 0 <= v < g.nV
    && todo <= adj && (forall t :: t in adj ==> Arc(g, v, t))
    && Closed(g, r) && ParentArcs(g, r) && ColorOf(vr1, v) == GRAY && ColorOf(r, v) == GRAY
    && Grows(g, v, vr1, r, lo, clock)
    && v in r.start && r.start[v] == lo
    && (forall u :: u in r.parent && u != v ==> ColorOf(r, u) != WHITE)
    && (forall u :: Discovered(vr1, r, u) ==> u in r.parent)
    && (forall w :: w in adj - todo ==> ColorOf(r, w) != WHITE)
    && (v in r.parent <==> v in vr1.parent)
  }

  lemma DfsStart(g: Mat, v: int, vr: Visit, vr1: Visit, time: int, adj: set<int>)
    requires DfsPre(g, v, vr) && forall t :: t in adj ==> Arc(g, v, t)
    requires vr1 == vr.(color := vr.color[v := GRAY], start := vr.start[v := time + 1])
    ensures Started(g, v, vr, vr1, time) && Whites(g, vr1) == Whites(g, vr) - {v}
    ensures DfsLoop(g, v, vr1, vr1, time + 1, time + 1, adj, adj)
  {
    assert Whites(g, vr1) == Whites(g, vr) - {v};
    forall u, w | ColorOf(vr1, u) == BLACK && Arc(g, u, w) ensures ColorOf(vr1, w) != WHITE {
      assert ColorOf(vr, u) == BLACK;
    }
  }

  lemma DfsStep(g: Mat, v: int, w: int, vr1: Visit, r: Visit, r2: Visit, lo: int, clock: int, c2: int,
                adj: set<int>, todo: set<int>)
    requires DfsLoop(g, v, vr1, r, lo, clock, adj, todo) && w in todo
    requires ColorOf(r, w) == WHITE
    requires DfsPost(g, w, r.(parent := r.parent[w := v]), r2, clock, c2)
    ensures DfsLoop(g, v, vr1, r2, lo, c2, adj, todo - {w})
  {
    var r1 := r.(parent := r.parent[w := v]);
    assert SameColors(r, r1);
    assert Whites(g, r1) == Whites(g, r);
    assert w !in vr1.parent;
    SettledStep(vr1, r, r1, r2);
    ReachStep(g, v, w, vr1, r, r1, r2);
    TimedStep(vr1, r, r1, r2, lo, clock, c2);
    ParentsStep(vr1, r, w, v, r2);
    forall u | Discovered(vr1, r2, u) ensures u in r2.parent {
      if !Discovered(vr1, r, u) {
        assert Discovered(r1, r2, u);
      }
    }
    forall u | u in r2.parent && u != v ensures ColorOf(r2, u) != WHITE {
      if u !in r1.parent {
        assert Discovered(r1, r2, u);
      }
    }
  }

  /** Turning v BLACK keeps the colouring closed once all its successors are coloured. */
  lemma FinishClosed(g: Mat, v: int, r: Visit, clock: int, adj: set<int>)
    requires Closed(g, r) && forall t :: Arc(g, v, t) ==> t in adj
    requires forall t :: t in adj ==> ColorOf(r, t) != WHITE
    ensures Closed(g, r.(color := r.color[v := BLACK], end := r.end[v := clock + 1]))
  {
    var f := r.(color := r.color[v := BLACK], end := r.end[v := clock + 1]);
    forall u, t | ColorOf(f, u) == BLACK && Arc(g, u, t) ensures ColorOf(f, t) != WHITE {
      if u != v {
        assert ColorOf(r, u) == BLACK;
      } else {
        assert t in adj;
      }
      assert ColorOf(r, t) != WHITE;
    }
  }

  /** The colouring started at v: v turns GRAY with the next discovery time. */
  ghost predicate Started(g: Mat, v: int, vr: Visit, vr1: Visit, time: int)
  {
    0 <= v < g.nV && ColorOf(vr, v) == WHITE && vr1 == vr.(color := vr.color[v := GRAY], start := vr.start[v := time + 1])
  }

  /** The colouring finished at v: v turns BLACK with the next finishing time. */
  function Finished(r: Visit, v: int, clock: int): Visit
  {
    r.(color := r.color[v := BLACK], end := r.end[v := clock + 1])
  }

  lemma FinishSettled(g: Mat, v: int, vr: Visit, vr1: Visit, r: Visit, time: int, clock: int)
    requires Started(g, v, vr, vr1, time) && Settled(vr1, r) && ColorOf(r, v) == GRAY
    ensures Settled(vr, Finished(r, v, clock))
  {
    var f := Finished(r, v, clock);
    forall u | ColorOf(vr, u) != WHITE ensures ColorOf(f, u) == ColorOf(vr, u) {
      assert u != v && ColorOf(vr1, u) == ColorOf(vr, u);
    }
    forall u | Discovered(vr, f, u) ensures ColorOf(f, u) == BLACK {
      if u != v {
        assert Discovered(vr1, r, u);
      }
    }
  }

  lemma FinishReached(g: Mat, v: int, vr: Visit, vr1: Visit, r: Visit, time: int, clock: int)
    requires Started(g, v, vr, vr1, time) && ReachedFrom(g, v, vr1, r)
    ensures ReachedFrom(g, v, vr, Finished(r, v, clock))
  {
    var f := Finished(r, v, clock);
    ReachRefl(g, v);
    forall u | Discovered(vr, f, u) ensures Reachable(g, v, u) {
      if u != v {
        assert Discovered(vr1, r, u);
      }
    }
  }

  lemma FinishTimed(g: Mat, v: int, vr: Visit, vr1: Visit, r: Visit, time: int, clock: int)
    requires Started(g, v, vr, vr1, time) && TimedIn(vr1, r, time + 1, clock) && time + 1 <= clock
    requires v in r.start && r.start[v] == time + 1
    ensures TimedIn(vr, Finished(r, v, clock), time, clock + 1)
  {
    var f := Finished(r, v, clock);
    forall u | Discovered(vr, f, u) ensures u in f.start && u in f.end && time < f.start[u] < f.end[u] <= clock + 1 {
      if u != v {
        assert Discovered(vr1, r, u);
      }
    }
    forall u | u in vr.start && !Discovered(vr, f, u) ensures u in f.start && f.start[u] == vr.start[u] {
      assert u != v && !Discovered(vr1, r, u);
    }
    forall u | u in vr.end && !Discovered(vr, f, u) ensures u in f.end && f.end[u] == vr.end[u] {
      assert u != v && !Discovered(vr1, r, u);
    }
  }

  lemma FinishParents(g: Mat, v: int, vr: Visit, vr1: Visit, r: Visit, time: int, clock: int)
    requires Started(g, v, vr, vr1, time) && ParentsKept(vr1, r) && ColorOf(r, v) == GRAY
    ensures ParentsKept(vr, Finished(r, v, clock))
  {
    var f := Finished(r, v, clock);
    forall u | u in f.parent ensures u in vr.parent || Discovered(vr, f, u) {
      if u !in vr1.parent {
        assert Discovered(vr1, r, u);
      }
    }
  }

  lemma FinishGrows(g: Mat, v: int, vr: Visit, vr1: Visit, r: Visit, time: int, clock: int)
    requires Started(g, v, vr, vr1, time)
    requires Grows(g, v, vr1, r, time + 1, clock) && ColorOf(r, v) == GRAY && v in r.start && r.start[v] == time + 1
    ensures Grows(g, v, vr, Finished(r, v, clock), time, clock + 1)
  {
    var f := Finished(r, v, clock);
    assert Whites(g, vr1) == Whites(g, vr) - {v};
    assert Whites(g, f) == Whites(g, r);
    FinishSettled(g, v, vr, vr1, r, time, clock);
    FinishReached(g, v, vr, vr1, r, time, clock);
    FinishTimed(g, v, vr, vr1, r, time, clock);
    FinishParents(g, v, vr, vr1, r, time, clock);
  }

  lemma DfsFinish(g: Mat, v: int, vr: Visit, vr1: Visit, r: Visit, time: int, clock: int, adj: set<int>)
    requires DfsPre(g, v, vr) && Started(g, v, vr, vr1, time)
    requires DfsLoop(g, v, vr1, r, time + 1, clock, adj, {})
    requires forall t :: Arc(g, v, t) ==> t in adj
    ensures DfsPost(g, v, vr, Finished(r, v, clock), time, clock + 1)
  {
    var f := Finished(r, v, clock);
    FinishClosed(g, v, r, clock, adj);
    FinishGrows(g, v, vr, vr1, r, time, clock);
    forall u | Discovered(vr, f, u) && u != v ensures u in f.parent {
      assert Discovered(vr1, r, u);
    }
  }

  /** A WHITE successor w met by the loop may be visited: DfsPre holds for it once it
      has v as its parent, and fewer vertices are WHITE than when v was entered. */
  lemma DfsCall(g: Mat, v: int, w: int, vr: Visit, vr1: Visit, r: Visit)
    requires Whites(g, vr1) == Whites(g, vr) - {v} && 0 <= v < g.nV && ColorOf(vr, v) == WHITE
    requires Ready(g) && Arc(g, v, w) && ColorOf(r, w) == WHITE && ColorOf(r, v) == GRAY
    requires Closed(g, r) && ParentArcs(g, r) && Whites(g, r) <= Whites(g, vr1)
    requires forall u :: u in r.parent && u != v ==> ColorOf(r, u) != WHITE
    ensures DfsPre(g, w, r.(parent := r.parent[w := v]))
    ensures Whites(g, r.(parent := r.parent[w := v])) < Whites(g, vr)
  {
    var r1 := r.(parent := r.parent[w := v]);
    assert r1.color == r.color;
    assert Whites(g, r1) == Whites(g, r);
    assert v in Whites(g, vr) && v !in Whites(g, r1);
  }

  /** visitDFS: v turns GRAY and gets the next time, each WHITE successor gets v as its
      parent and is visited in turn, then v turns BLACK and gets the next time. */
  method VisitDFS(g: Mat, v: int, vr: Visit, time: int) returns (r: Visit, clock: int)
    requires DfsPre(g, v, vr)
    ensures DfsPost(g, v, vr, r, time, clock)
    ensures clock >= time + 2
    decreases Whites(g, vr), 1
  {
    var vr1 := vr.(color := vr.color[v := GRAY], start := vr.start[v := time + 1]);
    var adj := Adjacent(g, v);
    DfsStart(g, v, vr, vr1, time, adj);
    r, clock := VisitSuccessors(g, v, vr, vr1, time, adj);
    DfsFinish(g, v, vr, vr1, r, time, clock, adj);
    r := Finished(r, v, clock);
    clock := clock + 1;
  }

  /** The loop of visitDFS(v) over its successors adj, entered with v GRAY in vr1. */
  method VisitSuccessors(g: Mat, v: int, vr: Visit, vr1: Visit, time: int, adj: set<int>)
    returns (r: Visit, clock: int)
    requires Whites(g, vr1) == Whites(g, vr) - {v} && 0 <= v < g.nV && ColorOf(vr, v) == WHITE
    requires DfsLoop(g, v, vr1, vr1, time + 1, time + 1, adj, adj)
    ensures DfsLoop(g, v, vr1, r, time + 1, clock, adj, {})
    decreases Whites(g, vr), 0
  {
    var todo := adj;
    r, clock := vr1, time + 1;
    while todo != {}
      invariant DfsLoop(g, v, vr1, r, time + 1, clock, adj, todo)
      decreases todo
    {
      var w := Pick(todo);
      if ColorOf(r, w) == WHITE {
        DfsCall(g, v, w, vr, vr1, r);
        var r2, c2 := VisitDFS(g, w, r.(parent := r.parent[w := v]), clock);
        DfsStep(g, v, w, vr1, r, r2, time + 1, clock, c2, adj, todo);
        r, clock := r2, c2;
      }
      todo := todo - {w};
    }
  }

  /** Some member of a nonempty set: the next element of the iteration over it. */
  method Pick(s: set<int>) returns (x: int)
    requires s != {}
    ensures x in s
  {
    if forall y :: y !in s {
      assert false;
    }
    x :| x in s;
  }

  lemma ReachableInRange(g: Mat, a: int, b: int)
    requires Reachable(g, a, b)
    ensures 0 <= a < g.nV && 0 <= b < g.nV
  {
    var p :| IsPath(g, p) && p[0] == a && p[|p| - 1] == b;
    PathInRange(g, p, |p| - 1);
  }

  /** The state between two visits of a forest: no GRAY vertex, no edge from BLACK to
      WHITE, parents only on coloured vertices and along edges, BLACK vertices timed,
      nothing outside the vertex range coloured. */
  ghost predicate Between(g: Mat, vr: Visit)
  {
    && Ready(g) && Closed(g, vr) && NoGray(vr) && ParentArcs(g, vr) && Timed(vr)
    && (forall u :: u in vr.parent ==> ColorOf(vr, u) != WHITE)
    && (forall u :: !(0 <= u < g.nV) ==> ColorOf(vr, u) == WHITE)
  }

  lemma FreshBetween(g: Mat, vr: Visit)
    requires Ready(g) && (forall u :: ColorOf(vr, u) == WHITE) && vr.parent == map[]
    ensures Between(g, vr)
  {
  }

  /** A complete visit from a WHITE vertex keeps the state between visits. */
  lemma VisitKeepsBetween(g: Mat, v: int, vr: Visit, r: Visit, time: int, clock: int)
    requires Between(g, vr) && 0 <= v < g.nV && ColorOf(vr, v) == WHITE
    requires DfsPost(g, v, vr, r, time, clock)
    ensures Between(g, r)
    ensures Whites(g, r) < Whites(g, vr)
  {
    forall u | Discovered(vr, r, u) ensures 0 <= u < g.nV {
      ReachableInRange(g, v, u);
    }
    forall u | ColorOf(r, u) == BLACK ensures u in r.start && u in r.end && r.start[u] < r.end[u] {
      if !Discovered(vr, r, u) {
        assert ColorOf(vr, u) == BLACK;
      }
    }
    assert v in Whites(g, vr) && v !in Whites(g, r);
  }

  lemma DfsPreBetween(g: Mat, v: int, vr: Visit)
    requires Between(g, vr) && 0 <= v < g.nV && ColorOf(vr, v) == WHITE
    ensures DfsPre(g, v, vr)
  {
  }

  /** What getDFSTree promises: BLACK exactly on the vertices reachable from the root and
      WHITE elsewhere, the root discovered at time 1, every BLACK vertex timed, parents
      exactly on the reached vertices other than the root, each along an edge. */
  ghost predicate DfsTreeOf(g: Mat, root: int, vr: Visit)
  {
    && (forall u :: ColorOf(vr, u) == (if Reachable(g, root, u) then BLACK else WHITE))
    && root in vr.start && vr.start[root] == 1 && Timed(vr) && ParentArcs(g, vr)
    && (forall u :: u in vr.parent <==> Reachable(g, root, u) && u != root)
  }

  /** getDFSTree: IllegalArgument outside the vertex range, else one visitDFS from the root. */
  method DfsTree(g: Mat, root: int) returns (res: Result<Visit>)
    requires Ready(g)
    ensures res.Err? <==> !(0 <= root < g.nV)
    ensures res.Err? ==> res.error == IllegalArgument
    ensures res.Ok? ==> DfsTreeOf(g, root, res.value)
  {
    if root >= g.nV || root < 0 {
      return Err(IllegalArgument);
    }
    var vr := InitGraph(g.nV);
    FreshBetween(g, vr);
    var r, clock := VisitDFS(g, root, vr, 0);
    VisitKeepsBetween(g, root, vr, r, 0, clock);
    forall u ensures ColorOf(r, u) == (if Reachable(g, root, u) then BLACK else WHITE) {
      if Reachable(g, root, u) {
        BlackHoldsReachable(g, r, root, u);
      } else {
        assert !Discovered(vr, r, u);
      }
    }
    forall u ensures u in r.parent <==> Reachable(g, root, u) && u != root {
      if u in r.parent {
        assert Discovered(vr, r, u);
      }
      if Reachable(g, root, u) && u != root {
        assert Discovered(vr, r, u);
      }
    }
    return Ok(r);
  }

  /** vertexColorControl: the lowest vertex not yet BLACK, or -1. */
  method NextNonBlack(g: Mat, vr: Visit) returns (next: int)
    ensures next == -1 <==> forall u :: 0 <= u < g.nV ==> ColorOf(vr, u) == BLACK
    ensures next != -1 ==> 0 <= next < g.nV && ColorOf(vr, next) != BLACK
    ensures next != -1 ==> forall u :: 0 <= u < next ==> ColorOf(vr, u) == BLACK
  {
    var i := 0;
    while i < g.nV
      invariant 0 <= i && (i <= g.nV || i == 0)
      invariant forall u :: 0 <= u < i ==> ColorOf(vr, u) == BLACK
    {
      if ColorOf(vr, i) != BLACK {
        return i;
      }
      i := i + 1;
    }
    return -1;
  }

  /** The closing loop of both getDFSTOTForest variants: visit from the lowest non-BLACK
      vertex until every vertex is BLACK. */
  method CompleteForest(g: Mat, vr: Visit, time: int) returns (r: Visit, clock: int)
    requires Between(g, vr)
    ensures Between(g, r)
    ensures forall u :: ColorOf(r, u) == (if 0 <= u < g.nV then BLACK else WHITE)
    ensures forall u :: ColorOf(vr, u) != WHITE ==> ColorOf(r, u) == ColorOf(vr, u)
    ensures forall u :: u in vr.start && ColorOf(vr, u) != WHITE ==> u in r.start && r.start[u] == vr.start[u]
  {
    r, clock := vr, time;
    var next := NextNonBlack(g, r);
    while next != -1
      invariant Between(g, r)
      invariant forall u :: ColorOf(vr, u) != WHITE ==> ColorOf(r, u) == ColorOf(vr, u)
      invariant forall u :: u in vr.start && ColorOf(vr, u) != WHITE ==> u in r.start && r.start[u] == vr.start[u]
      invariant next == -1 <==> forall u :: 0 <= u < g.nV ==> ColorOf(r, u) == BLACK
      invariant next != -1 ==> 0 <= next < g.nV && ColorOf(r, next) != BLACK
      decreases Whites(g, r)
    {
      DfsPreBetween(g, next, r);
      var r2, c2 := VisitDFS(g, next, r, clock);
      VisitKeepsBetween(g, next, r, r2, clock, c2);
      forall u | u in vr.start && ColorOf(vr, u) != WHITE ensures u in r2.start && r2.start[u] == vr.start[u] {
        assert !Discovered(r, r2, u);
      }
      r, clock := r2, c2;
      next := NextNonBlack(g, r);
    }
  }

  /** What both getDFSTOTForest variants promise: every vertex BLACK with its two times in
      order, every parent entry along an edge. */
  ghost predicate ForestOf(g: Mat, vr: Visit)
  {
    && (forall u :: ColorOf(vr, u) == (if 0 <= u < g.nV then BLACK else WHITE))
    && Timed(vr) && ParentArcs(g, vr)
  }

  /** getDFSTOTForest(root): IllegalArgument outside the vertex range, else visitDFS from the
      root, then from the lowest vertex not yet BLACK until none is left. */
  method DfsForest(g: Mat, root: int) returns (res: Result<Visit>)
    requires Ready(g)
    ensures res.Err? <==> !(0 <= root < g.nV)
    ensures res.Err? ==> res.error == IllegalArgument
    ensures res.Ok? ==> ForestOf(g, res.value) && root in res.value.start && res.value.start[root] == 1
  {
    if root >= g.nV || root < 0 {
      return Err(IllegalArgument);
    }
    var vr := InitGraph(g.nV);
    FreshBetween(g, vr);
    var r, clock := VisitDFS(g, root, vr, 0);
    VisitKeepsBetween(g, root, vr, r, 0, clock);
    r, clock := CompleteForest(g, r, clock);
    return Ok(r);
  }

  /** One root of getDFSTOTForest(roots): visitDFS from it when it is still WHITE. */
  method VisitRoot(g: Mat, roots: seq<int>, k: int, vr: Visit, time: int) returns (r: Visit, clock: int)
    requires Ready(g) && 0 <= k < |roots| && 0 <= roots[k] < g.nV && Between(g, vr)
    requires forall j :: 0 <= j < k ==> 0 <= roots[j] < g.nV && ColorOf(vr, roots[j]) == BLACK
    requires k > 0 ==> roots[0] in vr.start && vr.start[roots[0]] == 1
    requires k == 0 ==> (forall u :: ColorOf(vr, u) == WHITE) && time == 0
    ensures Between(g, r)
    ensures forall j :: 0 <= j <= k ==> ColorOf(r, roots[j]) == BLACK
    ensures roots[0] in r.start && r.start[roots[0]] == 1
  {
    r, clock := vr, time;
    if ColorOf(vr, roots[k]) == WHITE {
      r, clock := VisitDFS(g, roots[k], vr, time);
      VisitKeepsBetween(g, roots[k], vr, r, time, clock);
      forall j | 0 <= j < k ensures ColorOf(r, roots[j]) == BLACK && (j == 0 ==> roots[0] in r.start && r.start[roots[0]] == 1) {
        assert !Discovered(vr, r, roots[j]);
      }
    }
  }

  /** getDFSTOTForest(roots): the roots in the given order, IllegalArgument at the first one
      outside the vertex range, a visit from each root still WHITE, then the closing loop. */
  method DfsForestFrom(g: Mat, roots: seq<int>) returns (res: Result<Visit>)
    requires Ready(g)
    ensures res.Err? <==> exists k :: 0 <= k < |roots| && !(0 <= roots[k] < g.nV)
    ensures res.Err? ==> res.error == IllegalArgument
    ensures res.Ok? ==> ForestOf(g, res.value)
    ensures res.Ok? && |roots| > 0 ==> roots[0] in res.value.start && res.value.start[roots[0]] == 1
  {
    var vr := InitGraph(g.nV);
    FreshBetween(g, vr);
    var time := 0;
    var k := 0;
    while k < |roots|
      invariant 0 <= k <= |roots|
      invariant Between(g, vr)
      invariant forall j :: 0 <= j < k ==> 0 <= roots[j] < g.nV && ColorOf(vr, roots[j]) == BLACK
      invariant k > 0 ==> roots[0] in vr.start && vr.start[roots[0]] == 1
      invariant k == 0 ==> forall u :: ColorOf(vr, u) == WHITE
      invariant k == 0 ==> time == 0
    {
      if roots[k] >= g.nV || roots[k] < 0 {
        return Err(IllegalArgument);
      }
      vr, time := VisitRoot(g, roots, k, vr, time);
      k := k + 1;
    }
    vr, time := CompleteForest(g, vr, time);
    return Ok(vr);
  }

  // ---------------------------------------------------------------- breadth-first visit

  /** The loop invariant of visitBFS: the queue holds distinct vertices and exactly the GRAY
      ones; every coloured vertex was enqueued once and is reachable from the root; no edge
      leads from BLACK to WHITE; parents are exactly on the coloured vertices other than
      the root, each along an edge. */
  ghost predicate BfsInv(g: Mat, root: int, vr: Visit, queue: seq<int>, enqueued: seq<int>)
  {
    && Ready(g) && 0 <= root < g.nV && ColorOf(vr, root) != WHITE
    && (forall i, j :: 0 <= i < j < |queue| ==> queue[i] != queue[j])
    && (forall u :: ColorOf(vr, u) == GRAY <==> u in queue)
    && (forall i, j :: 0 <= i < j < |enqueued| ==> enqueued[i] != enqueued[j])
    && (forall u :: ColorOf(vr, u) != WHITE <==> u in enqueued)
    && |enqueued| > 0 && enqueued[0] == root
    && (forall u :: ColorOf(vr, u) != WHITE ==> Reachable(g, root, u))
    && Closed(g, vr) && ParentArcs(g, vr)
    && (forall u :: u in vr.parent <==> ColorOf(vr, u) != WHITE && u != root)
  }

  /** One successor w of the queue's head first: enqueued, GRAY, with first as its parent,
      if it is still WHITE. */
  lemma BfsEnqueue(g: Mat, root: int, vr: Visit, queue: seq<int>, enqueued: seq<int>, w: int)
    requires BfsInv(g, root, vr, queue, enqueued) && |queue| > 0 && Arc(g, queue[0], w)
    requires ColorOf(vr, w) == WHITE
    ensures BfsInv(g, root, vr.(color := vr.color[w := GRAY], parent := vr.parent[w := queue[0]]),
                   queue + [w], enqueued + [w])
  {
    var first := queue[0];
    var r := vr.(color := vr.color[w := GRAY], parent := vr.parent[w := first]);
    assert ColorOf(vr, first) == GRAY;
    ReachAppend(g, root, first, w);
    forall u, t | ColorOf(r, u) == BLACK && Arc(g, u, t) ensures ColorOf(r, t) != WHITE {
      assert u != w && ColorOf(vr, u) == BLACK;
    }
    var q := queue + [w];
    forall i, j | 0 <= i < j < |q| ensures q[i] != q[j] {
      if j < |queue| {
        assert q[i] == queue[i] && q[j] == queue[j];
      } else {
        assert q[i] == queue[i] && queue[i] in queue;
      }
    }
    var e := enqueued + [w];
    forall i, j | 0 <= i < j < |e| ensures e[i] != e[j] {
      if j < |enqueued| {
        assert e[i] == enqueued[i] && e[j] == enqueued[j];
      } else {
        assert e[i] == enqueued[i] && enqueued[i] in enqueued;
      }
    }
  }

  /** Blackening the head keeps the colouring closed once its successors are coloured. */
  lemma DequeueClosed(g: Mat, vr: Visit, first: int)
    requires Closed(g, vr) && forall t :: Arc(g, first, t) ==> ColorOf(vr, t) != WHITE
    ensures Closed(g, vr.(color := vr.color[first := BLACK]))
  {
    var r := vr.(color := vr.color[first := BLACK]);
    forall u, t | ColorOf(r, u) == BLACK && Arc(g, u, t) ensures ColorOf(r, t) != WHITE {
      if u != first {
        assert ColorOf(vr, u) == BLACK;
      }
      assert ColorOf(vr, t) != WHITE;
    }
  }

  /** Blackening the head leaves exactly the tail GRAY, still without repeats. */
  lemma DequeueQueue(vr: Visit, queue: seq<int>)
    requires |queue| > 0 && forall i, j :: 0 <= i < j < |queue| ==> queue[i] != queue[j]
    requires forall u :: ColorOf(vr, u) == GRAY <==> u in queue
    ensures forall u :: ColorOf(vr.(color := vr.color[queue[0] := BLACK]), u) == GRAY <==> u in queue[1..]
    ensures forall i, j :: 0 <= i < j < |queue[1..]| ==> queue[1..][i] != queue[1..][j]
  {
    var first := queue[0];
    var r := vr.(color := vr.color[first := BLACK]);
    HeadNotInTail(queue);
    assert queue == [first] + queue[1..];
    forall u ensures ColorOf(r, u) == GRAY <==> u in queue[1..] {
      if u != first {
        assert u in queue <==> u in queue[1..];
      }
    }
    var q := queue[1..];
    forall i, j | 0 <= i < j < |q| ensures q[i] != q[j] {
      assert q[i] == queue[i + 1] && q[j] == queue[j + 1];
    }
  }

  /** The head of the queue turns BLACK and leaves the queue once its successors are coloured. */
  lemma BfsDequeue(g: Mat, root: int, vr: Visit, queue: seq<int>, enqueued: seq<int>)
    requires BfsInv(g, root, vr, queue, enqueued) && |queue| > 0
    requires forall t :: Arc(g, queue[0], t) ==> ColorOf(vr, t) != WHITE
    ensures BfsInv(g, root, vr.(color := vr.color[queue[0] := BLACK]), queue[1..], enqueued)
    ensures Whites(g, vr.(color := vr.color[queue[0] := BLACK])) == Whites(g, vr)
  {
    var r := vr.(color := vr.color[queue[0] := BLACK]);
    assert ColorOf(vr, queue[0]) == GRAY;
    DequeueClosed(g, vr, queue[0]);
    DequeueQueue(vr, queue);
    assert forall u :: ColorOf(r, u) != WHITE <==> ColorOf(vr, u) != WHITE;
  }

  lemma HeadNotInTail(q: seq<int>)
    requires |q| > 0 && forall i, j :: 0 <= i < j < |q| ==> q[i] != q[j]
    ensures q[0] !in q[1..]
  {
    forall j | 0 <= j < |q| - 1 ensures q[1..][j] != q[0] {
      assert q[1..][j] == q[j + 1];
    }
  }

  /** What getBFSTree promises: BLACK exactly on the vertices reachable from the root and
      WHITE elsewhere; parents exactly on the reached vertices other than the root, each
      along an edge; every reached vertex enqueued exactly once, the root first. */
  ghost predicate BfsTreeOf(g: Mat, root: int, vr: Visit, enqueued: seq<int>)
  {
    && (forall u :: ColorOf(vr, u) == (if Reachable(g, root, u) then BLACK else WHITE))
    && ParentArcs(g, vr)
    && (forall u :: u in vr.parent <==> Reachable(g, root, u) && u != root)
    && (forall i, j :: 0 <= i < j < |enqueued| ==> enqueued[i] != enqueued[j])
    && (forall u :: u in enqueued <==> Reachable(g, root, u))
    && |enqueued| > 0 && enqueued[0] == root
  }

  /** The invariant of the inner loop of visitBFS over the head's successors adj, with r0
      and queue0 the colouring and the queue when the head was taken. */
  ghost predicate BfsInner(g: Mat, root: int, r: Visit, queue: seq<int>, enqueued: seq<int>,
                           adj: set<int>, todo: set<int>, r0: Visit, queue0: seq<int>)
  {
    && todo <= adj && BfsInv(g, root, r, queue, enqueued)
    && |queue0| > 0 && |queue0| <= |queue| && queue[..|queue0|] == queue0
    && (forall t :: t in adj ==> Arc(g, queue0[0], t))
    && (forall t :: t in adj - todo ==> ColorOf(r, t) != WHITE)
    && Whites(g, r) <= Whites(g, r0)
    && (Whites(g, r) == Whites(g, r0) ==> queue == queue0)
  }

  lemma BfsInnerStep(g: Mat, root: int, r: Visit, queue: seq<int>, enqueued: seq<int>,
                     adj: set<int>, todo: set<int>, r0: Visit, queue0: seq<int>, w: int)
    requires BfsInner(g, root, r, queue, enqueued, adj, todo + {w}, r0, queue0) && w in adj
    ensures ColorOf(r, w) == WHITE ==>
      BfsInner(g, root, r.(color := r.color[w := GRAY], parent := r.parent[w := queue[0]]),
               queue + [w], enqueued + [w], adj, todo, r0, queue0)
    ensures ColorOf(r, w) != WHITE ==> BfsInner(g, root, r, queue, enqueued, adj, todo, r0, queue0)
  {
    assert queue[0] == queue0[0];
    if ColorOf(r, w) == WHITE {
      BfsEnqueue(g, root, r, queue, enqueued, w);
      var r1 := r.(color := r.color[w := GRAY], parent := r.parent[w := queue[0]]);
      assert w in Whites(g, r0) && w !in Whites(g, r1);
      assert Whites(g, r1) == Whites(g, r) - {w};
      assert (queue + [w])[..|queue0|] == queue[..|queue0|];
    }
  }

  /** When the queue is empty the BLACK vertices are exactly those reachable from the root. */
  lemma BfsDone(g: Mat, root: int, r: Visit, enqueued: seq<int>)
    requires BfsInv(g, root, r, [], enqueued)
    ensures BfsTreeOf(g, root, r, enqueued)
  {
    forall u ensures ColorOf(r, u) == (if Reachable(g, root, u) then BLACK else WHITE) {
      if Reachable(g, root, u) {
        BlackHoldsReachable(g, r, root, u);
      }
    }
  }

  /** The inner loop of visitBFS: every WHITE successor of the queue's head turns GRAY,
      gets the head as parent and joins the queue. */
  method EnqueueSuccessors(g: Mat, root: int, vr: Visit, queue: seq<int>, ghost enqueued: seq<int>)
    returns (r: Visit, queue': seq<int>, ghost enqueued': seq<int>)
    requires BfsInv(g, root, vr, queue, enqueued) && |queue| > 0
    ensures BfsInv(g, root, r, queue', enqueued') && |queue'| > 0 && queue'[0] == queue[0]
    ensures forall t :: Arc(g, queue[0], t) ==> ColorOf(r, t) != WHITE
    ensures Whites(g, r) <= Whites(g, vr) && (Whites(g, r) == Whites(g, vr) ==> queue' == queue)
  {
    var first := queue[0];
    assert ColorOf(vr, first) == GRAY;
    ReachableInRange(g, root, first);
    var adj := Adjacent(g, first);
    var todo := adj;
    r, queue', enqueued' := vr, queue, enqueued;
    while todo != {}
      invariant BfsInner(g, root, r, queue', enqueued', adj, todo, vr, queue)
      decreases todo
    {
      var w := Pick(todo);
      todo := todo - {w};
      BfsInnerStep(g, root, r, queue', enqueued', adj, todo, vr, queue, w);
      if ColorOf(r, w) == WHITE {
        r := r.(color := r.color[w := GRAY], parent := r.parent[w := first]);
        queue' := queue' + [w];
        enqueued' := enqueued' + [w];
      }
    }
    assert queue'[0] == queue'[..|queue|][0];
  }

  /** The root GRAY and alone in the queue is where visitBFS starts. */
  lemma BfsStart(g: Mat, root: int, vr: Visit)
    requires Ready(g) && 0 <= root < g.nV
    requires (forall u :: ColorOf(vr, u) == WHITE) && vr.parent == map[]
    ensures BfsInv(g, root, vr.(color := vr.color[root := GRAY]), [root], [root])
  {
    var r := vr.(color := vr.color[root := GRAY]);
    ReachRefl(g, root);
    forall u ensures ColorOf(r, u) == (if u == root then GRAY else WHITE) {
      if u != root {
        assert ColorOf(r, u) == ColorOf(vr, u);
      }
    }
  }

  /** visitBFS: the root turns GRAY and enters the queue; the head's WHITE successors turn
      GRAY, get the head as parent and join the queue; then the head turns BLACK and leaves. */
  method VisitBFS(g: Mat, root: int, vr: Visit) returns (r: Visit, ghost enqueued: seq<int>)
    requires Ready(g) && 0 <= root < g.nV
    requires (forall u :: ColorOf(vr, u) == WHITE) && vr.parent == map[]
    ensures BfsTreeOf(g, root, r, enqueued)
  {
    BfsStart(g, root, vr);
    r := vr.(color := vr.color[root := GRAY]);
    var queue := [root];
    enqueued := [root];
    while |queue| > 0
      invariant BfsInv(g, root, r, queue, enqueued)
      decreases Whites(g, r), |queue|
    {
      var first := queue[0];
      r, queue, enqueued := EnqueueSuccessors(g, root, r, queue, enqueued);
      BfsDequeue(g, root, r, queue, enqueued);
      r := r.(color := r.color[first := BLACK]);
      queue := queue[1..];
    }
    BfsDone(g, root, r, enqueued);
  }

  /** getBFSTree: IllegalArgument outside the vertex range, else visitBFS from a fresh colouring. */
  method BfsTree(g: Mat, root: int) returns (res: Result<Visit>, ghost enqueued: seq<int>)
    requires Ready(g)
    ensures res.Err? <==> !(0 <= root < g.nV)
    ensures res.Err? ==> res.error == IllegalArgument
    ensures res.Ok? ==> BfsTreeOf(g, root, res.value, enqueued)
  {
    if root >= g.nV || root < 0 {
      return Err(IllegalArgument), [];
    }
    var vr := InitGraph(g.nV);
    var r;
    r, enqueued := VisitBFS(g, root, vr);
    return Ok(r), enqueued;
  }

  // ---------------------------------------------------------------- the cycle check

  /** The GRAY vertices are exactly those on the stack of the visits in progress. */
  ghost predicate GrayIsStack(vr: Visit, stack: seq<int>)
  {
    forall u :: ColorOf(vr, u) == GRAY <==> u in stack
  }

  /** Finishing ranks: BLACK vertices have only BLACK successors, each ranked lower, and
      every rank is below clock. */
  ghost predicate Ranked(g: Mat, vr: Visit, fin: map<int, int>, clock: int)
  {
    && (forall u :: ColorOf(vr, u) == BLACK ==> u in fin && fin[u] < clock)
    && (forall u, w :: ColorOf(vr, u) == BLACK && Arc(g, u, w) ==>
          ColorOf(vr, w) == BLACK && u in fin && w in fin && fin[w] < fin[u])
  }

  /** What visitDFSIsCyclic(v) needs: v is a WHITE vertex one edge beyond the walk of GRAY
      vertices on the stack, and the BLACK vertices are ranked. */
  ghost predicate CycPre(g: Mat, v: int, vr: Visit, stack: seq<int>, fin: map<int, int>, clock: int)
  {
    && Ready(g) && 0 <= v < g.nV && ColorOf(vr, v) == WHITE
    && (|stack| == 0 || (IsPath(g, stack) && Arc(g, stack[|stack| - 1], v)))
    && GrayIsStack(vr, stack) && Ranked(g, vr, fin, clock)
  }

  /** What visitDFSIsCyclic(v) guarantees when it reports no cycle: v is BLACK, colours
      given stay, new ones are BLACK, the GRAY vertices are as before and the BLACK ones stay ranked. */
  ghost predicate CycPost(g: Mat, v: int, vr: Visit, r: Visit, fin: map<int, int>, clock: int)
  {
    && ColorOf(r, v) == BLACK && Settled(vr, r) && Whites(g, r) <= Whites(g, vr)
    && (forall u :: ColorOf(r, u) == GRAY <==> ColorOf(vr, u) == GRAY)
    && Ranked(g, r, fin, clock)
  }

  /** The loop invariant of visitDFSIsCyclic(v): st is the stack with v on top. */
  ghost predicate CycLoop(g: Mat, v: int, vr1: Visit, r: Visit, st: seq<int>, fin: map<int, int>, clock: int,
                          adj: set<int>, todo: set<int>)
  {
    && Ready(g) && 0 <= v < g.nV && todo <= adj && (forall t :: t in adj ==> Arc(g, v, t))
    && IsPath(g, st) && st[|st| - 1] == v
    && GrayIsStack(r, st) && Ranked(g, r, fin, clock) && Settled(vr1, r) && Whites(g, r) <= Whites(g, vr1)
    && (forall t :: t in adj - todo ==> ColorOf(r, t) == BLACK)
  }

  lemma CycStart(g: Mat, v: int, vr: Visit, stack: seq<int>, fin: map<int, int>, clock: int, adj: set<int>)
    requires CycPre(g, v, vr, stack, fin, clock) && forall t :: t in adj ==> Arc(g, v, t)
    ensures CycLoop(g, v, vr.(color := vr.color[v := GRAY]), vr.(color := vr.color[v := GRAY]),
                    stack + [v], fin, clock, adj, adj)
    ensures Whites(g, vr.(color := vr.color[v := GRAY])) == Whites(g, vr) - {v}
  {
    var vr1 := vr.(color := vr.color[v := GRAY]);
    var st := stack + [v];
    if |stack| == 0 {
      assert st == [v];
    } else {
      PathAppend(g, stack, v);
    }
    forall u ensures ColorOf(vr1, u) == GRAY <==> u in st {
      if u != v {
        assert ColorOf(vr1, u) == ColorOf(vr, u);
      }
    }
    forall u, w | ColorOf(vr1, u) == BLACK && Arc(g, u, w)
      ensures ColorOf(vr1, w) == BLACK && u in fin && w in fin && fin[w] < fin[u]
    {
      assert ColorOf(vr, u) == BLACK;
    }
  }

  /** A GRAY successor w of the top of the stack closes a cycle: the stack from w on, then w. */
  lemma CycleFromStack(g: Mat, st: seq<int>, w: int) returns (cycle: seq<int>)
    requires IsPath(g, st) && w in st && Arc(g, st[|st| - 1], w)
    ensures IsCycle(g, cycle)
  {
    var k :| 0 <= k < |st| && st[k] == w;
    PathSuffix(g, st, k);
    var tail := st[k..];
    assert tail[|tail| - 1] == st[|st| - 1];
    PathAppend(g, tail, w);
    cycle := tail + [w];
  }

  lemma CycStep(g: Mat, v: int, w: int, vr1: Visit, r: Visit, r2: Visit, st: seq<int>,
                fin: map<int, int>, clock: int, fin2: map<int, int>, clock2: int, adj: set<int>, todo: set<int>)
    requires CycLoop(g, v, vr1, r, st, fin, clock, adj, todo + {w}) && w in adj && w !in todo
    requires ColorOf(r, w) == WHITE && CycPost(g, w, r, r2, fin2, clock2)
    ensures CycLoop(g, v, vr1, r2, st, fin2, clock2, adj, todo)
  {
    assert SameColors(r, r);
    SettledStep(vr1, r, r, r2);
  }

  lemma CycFinish(g: Mat, v: int, vr: Visit, stack: seq<int>, fin0: map<int, int>, clock0: int,
                  r: Visit, fin: map<int, int>, clock: int, adj: set<int>)
    requires CycPre(g, v, vr, stack, fin0, clock0)
    requires CycLoop(g, v, vr.(color := vr.color[v := GRAY]), r, stack + [v], fin, clock, adj, {})
    requires forall t :: Arc(g, v, t) ==> t in adj
    ensures CycPost(g, v, vr, r.(color := r.color[v := BLACK]), fin[v := clock], clock + 1)
  {
    var vr1 := vr.(color := vr.color[v := GRAY]);
    var f := r.(color := r.color[v := BLACK]);
    var fin' := fin[v := clock];
    assert ColorOf(r, v) == GRAY;
    assert v !in stack;
    assert Whites(g, vr1) == Whites(g, vr) - {v};
    assert Whites(g, f) == Whites(g, r);
    forall u | ColorOf(f, u) == BLACK ensures u in fin' && fin'[u] < clock + 1 {
      if u != v {
        assert ColorOf(r, u) == BLACK;
      }
    }
    forall u, w | ColorOf(f, u) == BLACK && Arc(g, u, w)
      ensures ColorOf(f, w) == BLACK && u in fin' && w in fin' && fin'[w] < fin'[u]
    {
      if u != v {
        assert ColorOf(r, u) == BLACK;
      } else {
        assert w in adj;
      }
      assert ColorOf(r, w) == BLACK;
    }
    forall u ensures ColorOf(f, u) == GRAY <==> ColorOf(vr, u) == GRAY {
      if u != v {
        assert ColorOf(r, u) == GRAY <==> u in stack + [v];
      }
    }
    forall u | ColorOf(vr, u) != WHITE ensures ColorOf(f, u) == ColorOf(vr, u) {
      assert u != v && ColorOf(vr1, u) == ColorOf(vr, u);
    }
    forall u | Discovered(vr, f, u) ensures ColorOf(f, u) == BLACK {
      if u != v {
        assert Discovered(vr1, r, u);
      }
    }
  }

  /** visitDFSIsCyclic: v turns GRAY; a WHITE successor is visited in turn and a GRAY one
      means a cycle; with no cycle found v turns BLACK. The stack, ranks and cycle are ghost. */
  method VisitCyclic(g: Mat, v: int, vr: Visit, ghost stack: seq<int>, ghost fin: map<int, int>, ghost clock: int)
    returns (found: bool, r: Visit, ghost fin2: map<int, int>, ghost clock2: int, ghost cycle: seq<int>)
    requires CycPre(g, v, vr, stack, fin, clock)
    ensures found ==> IsCycle(g, cycle)
    ensures !found ==> CycPost(g, v, vr, r, fin2, clock2)
    decreases Whites(g, vr)
  {
    var vr1 := vr.(color := vr.color[v := GRAY]);
    ghost var st := stack + [v];
    var adj := Adjacent(g, v);
    CycStart(g, v, vr, stack, fin, clock, adj);
    var todo := adj;
    r, fin2, clock2, cycle := vr1, fin, clock, [];
    while todo != {}
      invariant CycLoop(g, v, vr1, r, st, fin2, clock2, adj, todo)
      decreases todo
    {
      var w := Pick(todo);
      todo := todo - {w};
      var color := ColorOf(r, w);
      if color == WHITE {
        var f, r2;
        ghost var fin3, clock3, cyc;
        f, r2, fin3, clock3, cyc := VisitCyclic(g, w, r, st, fin2, clock2);
        if f {
          return true, r2, fin3, clock3, cyc;
        }
        CycStep(g, v, w, vr1, r, r2, st, fin2, clock2, fin3, clock3, adj, todo);
        r, fin2, clock2 := r2, fin3, clock3;
      } else if color == GRAY {
        cycle := CycleFromStack(g, st, w);
        return true, r, fin2, clock2, cycle;
      }
    }
    CycFinish(g, v, vr, stack, fin, clock, r, fin2, clock2, adj);
    r := r.(color := r.color[v := BLACK]);
    fin2, clock2 := fin2[v := clock2], clock2 + 1;
    return false, r, fin2, clock2, cycle;
  }

  /** isCyclic: a fresh colouring, then visitDFSIsCyclic from every vertex still WHITE; true
      exactly when the graph has a cycle. */
  method IsCyclic(g: Mat) returns (cyclic: bool)
    requires Ready(g)
    ensures cyclic <==> HasCycle(g)
  {
    var vr := InitGraph(g.nV);
    ghost var fin: map<int, int> := map[];
    ghost var clock := 0;
    var v := 0;
    while v < g.nV
      invariant 0 <= v && (v <= g.nV || v == 0)
      invariant NoGray(vr) && Ranked(g, vr, fin, clock)
      invariant forall u :: 0 <= u < v ==> ColorOf(vr, u) == BLACK
    {
      if ColorOf(vr, v) == WHITE {
        var found, r;
        ghost var fin2, clock2, cycle;
        found, r, fin2, clock2, cycle := VisitCyclic(g, v, vr, [], fin, clock);
        if found {
          return true;
        }
        vr, fin, clock := r, fin2, clock2;
      }
      v := v + 1;
    }
    forall u, w | Arc(g, u, w) ensures u in fin && w in fin && fin[w] < fin[u] {
      assert ColorOf(vr, u) == BLACK;
    }
    RankForbidsCycle(g, fin);
    return false;
  }

  // ---------------------------------------------------------------- the two passes of Kosaraju

  /** The finish list holds each BLACK vertex once and nothing else. */
  ghost predicate Listed(vr: Visit, order: seq<int>)
  {
    Distinct(order) && forall u :: u in order <==> ColorOf(vr, u) == BLACK
  }

  /** What a visit from v that changes only colours leaves behind: v BLACK, colours given
      stay, new ones BLACK and inside the vertex range, the GRAY vertices as before, and
      still no edge from a BLACK vertex to a WHITE one. */
  ghost predicate Recolored(g: Mat, v: int, vr: Visit, r: Visit)
  {
    && ColorOf(r, v) == BLACK && Settled(vr, r) && Whites(g, r) <= Whites(g, vr)
    && (forall u :: ColorOf(r, u) == GRAY <==> ColorOf(vr, u) == GRAY)
    && (forall u :: Discovered(vr, r, u) ==> 0 <= u < g.nV)
    && Closed(g, r)
  }

  /** The loop invariant shared by normalDFS(v) and dfsComponent(v): v GRAY, colours given
      since vr1 BLACK and inside the vertex range, the GRAY vertices as in vr1, and every
      successor of v already taken from the work set coloured. */
  ghost predicate PassLoop(g: Mat, v: int, vr1: Visit, r: Visit, adj: set<int>, todo: set<int>)
  {
    && Ready(g) && 0 <= v < g.nV && todo <= adj && (forall t :: t in adj <==> Arc(g, v, t))
    && ColorOf(vr1, v) == GRAY && Settled(vr1, r) && Whites(g, r) <= Whites(g, vr1)
    && (forall u :: ColorOf(r, u) == GRAY <==> ColorOf(vr1, u) == GRAY)
    && (forall u :: Discovered(vr1, r, u) ==> 0 <= u < g.nV)
    && Closed(g, r) && (forall t :: t in adj && t !in todo ==> ColorOf(r, t) != WHITE)
  }

  lemma PassStart(g: Mat, v: int, vr: Visit, adj: set<int>)
    requires Ready(g) && 0 <= v < g.nV && ColorOf(vr, v) == WHITE && Closed(g, vr)
    requires forall t :: t in adj <==> Arc(g, v, t)
    ensures PassLoop(g, v, vr.(color := vr.color[v := GRAY]), vr.(color := vr.color[v := GRAY]), adj, adj)
    ensures Whites(g, vr.(color := vr.color[v := GRAY])) == Whites(g, vr) - {v}
    ensures forall u :: ColorOf(vr.(color := vr.color[v := GRAY]), u) == (if u == v then GRAY else ColorOf(vr, u))
  {
  }

  lemma PassStep(g: Mat, v: int, w: int, vr1: Visit, r: Visit, r2: Visit, adj: set<int>, todo: set<int>)
    requires PassLoop(g, v, vr1, r, adj, todo + {w}) && w in adj && w !in todo && ColorOf(r, w) == WHITE
    requires Recolored(g, w, r, r2)
    ensures PassLoop(g, v, vr1, r2, adj, todo)
  {
    assert SameColors(r, r);
    SettledStep(vr1, r, r, r2);
    forall u | Discovered(vr1, r2, u) ensures 0 <= u < g.nV {
      if !Discovered(vr1, r, u) {
        assert Discovered(r, r2, u);
      }
    }
    forall t | t in adj && t !in todo ensures ColorOf(r2, t) != WHITE {
      if t != w {
        assert ColorOf(r, t) != WHITE;
      }
    }
  }

  /** A successor found already coloured is passed over. */
  lemma PassSkip(g: Mat, v: int, w: int, vr1: Visit, r: Visit, adj: set<int>, todo: set<int>)
    requires PassLoop(g, v, vr1, r, adj, todo + {w}) && w in adj && ColorOf(r, w) != WHITE
    ensures PassLoop(g, v, vr1, r, adj, todo)
  {
  }

  lemma PassFinish(g: Mat, v: int, vr: Visit, vr1: Visit, r: Visit, f: Visit, adj: set<int>)
    requires Ready(g) && 0 <= v < g.nV && ColorOf(vr, v) == WHITE
    requires vr1 == vr.(color := vr.color[v := GRAY]) && f == r.(color := r.color[v := BLACK])
    requires PassLoop(g, v, vr1, r, adj, {})
    ensures Recolored(g, v, vr, f)
    ensures forall u :: Discovered(vr, f, u) <==> u == v || Discovered(vr1, r, u)
  {
    assert Whites(g, vr1) == Whites(g, vr) - {v};
    assert Whites(g, f) == Whites(g, r);
    forall u | ColorOf(vr, u) != WHITE ensures ColorOf(f, u) == ColorOf(vr, u) {
      assert u != v && ColorOf(vr1, u) == ColorOf(vr, u);
    }
    forall u | Discovered(vr, f, u) ensures ColorOf(f, u) == BLACK && 0 <= u < g.nV {
      if u != v {
        assert Discovered(vr1, r, u);
      }
    }
    forall u ensures ColorOf(f, u) == GRAY <==> ColorOf(vr, u) == GRAY {
      if u != v {
        assert ColorOf(vr1, u) == ColorOf(vr, u);
      }
    }
    forall u, w | ColorOf(f, u) == BLACK && Arc(g, u, w) ensures ColorOf(f, w) != WHITE {
      if u == v {
        assert w in adj && ColorOf(r, w) != WHITE;
      } else {
        assert ColorOf(r, u) == BLACK;
      }
    }
  }

  /** Every vertex mutually reachable with x is BLACK. */
  ghost predicate ClassBlack(g: Mat, vr: Visit, x: int)
  {
    forall z :: MutuallyReachable(g, x, z) ==> ColorOf(vr, z) == BLACK
  }

  /** Once a vertex's whole class is BLACK, so is everything it reaches. */
  ghost predicate Sealed(g: Mat, vr: Visit)
  {
    forall x, y {:trigger ClassBlack(g, vr, x), Reachable(g, x, y)} ::
      ClassBlack(g, vr, x) && Reachable(g, x, y) ==> ColorOf(vr, y) == BLACK
  }

  /** x reaches y and y does not reach x back. */
  ghost predicate Escapes(g: Mat, x: int, y: int)
  {
    Reachable(g, x, y) && !Reachable(g, y, x)
  }

  /** y stands before z in the list. */
  ghost predicate Before(order: seq<int>, y: int, z: int)
  {
    exists i, j :: 0 <= i < j < |order| && order[i] == y && order[j] == z
  }

  /** The invariant of the first pass: whenever x reaches a listed y that does not reach
      it back, the class of x holds a vertex not yet BLACK or listed after y. */
  ghost predicate Ahead(g: Mat, vr: Visit, order: seq<int>)
  {
    forall x, y :: y in order && Escapes(g, x, y) ==>
      exists z :: MutuallyReachable(g, x, z) && (ColorOf(vr, z) != BLACK || Before(order, y, z))
  }

  /** What the finish list of the first pass promises: whenever x reaches y and y does not
      reach x back, some vertex of the class of x finishes after y. */
  ghost predicate FinishesLater(g: Mat, order: seq<int>)
  {
    forall x, y :: Escapes(g, x, y) ==> exists z :: MutuallyReachable(g, x, z) && Before(order, y, z)
  }

  lemma SealedStart(g: Mat, vr: Visit)
    requires forall u :: ColorOf(vr, u) == WHITE
    ensures Closed(g, vr) && Sealed(g, vr) && Ahead(g, vr, [])
  {
    forall x, y | Reachable(g, x, y) ensures !ClassBlack(g, vr, x) {
      var p :| IsPath(g, p) && p[0] == x && p[|p| - 1] == y;
      PathInRange(g, p, 0);
      ReachRefl(g, x);
      assert MutuallyReachable(g, x, x);
    }
  }

  /** Turning the WHITE vertex v GRAY keeps the first-pass invariants. */
  lemma GrayKeeps(g: Mat, v: int, vr: Visit, order: seq<int>)
    requires ColorOf(vr, v) == WHITE && Sealed(g, vr) && Ahead(g, vr, order)
    ensures Sealed(g, vr.(color := vr.color[v := GRAY]))
    ensures Ahead(g, vr.(color := vr.color[v := GRAY]), order)
  {
    var vr1 := vr.(color := vr.color[v := GRAY]);
    assert forall u :: ColorOf(vr1, u) == (if u == v then GRAY else ColorOf(vr, u));
    forall x, y | ClassBlack(g, vr1, x) && Reachable(g, x, y) ensures ColorOf(vr1, y) == BLACK {
      forall z | MutuallyReachable(g, x, z) ensures ColorOf(vr, z) == BLACK {
        assert ColorOf(vr1, z) == BLACK;
      }
      assert ClassBlack(g, vr, x);
      assert ColorOf(vr, y) == BLACK;
    }
    forall x, y | y in order && Escapes(g, x, y)
      ensures exists z :: MutuallyReachable(g, x, z) && (ColorOf(vr1, z) != BLACK || Before(order, y, z))
    {
      var z :| MutuallyReachable(g, x, z) && (ColorOf(vr, z) != BLACK || Before(order, y, z));
      assert ColorOf(vr1, z) != BLACK || Before(order, y, z);
    }
  }

  /** When every GRAY vertex reaches the BLACK vertex v and the class of v is BLACK, the
      walks out of v meet only BLACK vertices. */
  lemma {:induction false} SealPath(g: Mat, f: Visit, v: int, p: seq<int>)
    requires IsPath(g, p) && p[0] == v && Closed(g, f) && ColorOf(f, v) == BLACK
    requires forall u :: ColorOf(f, u) == GRAY ==> Reachable(g, u, v)
    requires ClassBlack(g, f, v)
    ensures ColorOf(f, p[|p| - 1]) == BLACK
    decreases |p|
  {
    if |p| > 1 {
      var q := p[..|p| - 1];
      assert IsPath(g, q);
      SealPath(g, f, v, q);
      var a, b := p[|p| - 2], p[|p| - 1];
      assert Arc(g, a, b);
      assert Reachable(g, v, b);
      assert ColorOf(f, b) == GRAY ==> MutuallyReachable(g, v, b);
    }
  }

  /** Turning the GRAY vertex v BLACK, once all its successors are coloured, keeps the
      first-pass invariants with v appended to the finish list. */
  lemma FinishKeeps(g: Mat, v: int, r: Visit, f: Visit, order: seq<int>)
    requires f == r.(color := r.color[v := BLACK]) && ColorOf(r, v) == GRAY && v !in order
    requires Closed(g, f) && Sealed(g, r) && Ahead(g, r, order)
    requires forall u :: ColorOf(f, u) == GRAY ==> Reachable(g, u, v)
    ensures Sealed(g, f) && Ahead(g, f, order + [v])
  {
    assert forall u :: ColorOf(f, u) == (if u == v then BLACK else ColorOf(r, u));
    forall x, y | ClassBlack(g, f, x) && Reachable(g, x, y) ensures ColorOf(f, y) == BLACK {
      if MutuallyReachable(g, x, v) {
        forall z | MutuallyReachable(g, v, z) ensures ColorOf(f, z) == BLACK {
          ReachTrans(g, x, v, z);
          ReachTrans(g, z, v, x);
          assert MutuallyReachable(g, x, z);
        }
        ReachTrans(g, v, x, y);
        var p :| IsPath(g, p) && p[0] == v && p[|p| - 1] == y;
        SealPath(g, f, v, p);
      } else {
        forall z | MutuallyReachable(g, x, z) ensures ColorOf(r, z) == BLACK {
          assert z != v;
          assert ColorOf(f, z) == BLACK;
        }
        assert ClassBlack(g, r, x);
        assert ColorOf(r, y) == BLACK;
      }
    }
    var order' := order + [v];
    forall x, y | y in order' && Escapes(g, x, y)
      ensures exists z :: MutuallyReachable(g, x, z) && (ColorOf(f, z) != BLACK || Before(order', y, z))
    {
      if y == v {
        assert !ClassBlack(g, r, x);
        var z :| MutuallyReachable(g, x, z) && ColorOf(r, z) != BLACK;
        assert z != v;
        assert ColorOf(f, z) != BLACK;
      } else {
        assert y in order;
        var z :| MutuallyReachable(g, x, z) && (ColorOf(r, z) != BLACK || Before(order, y, z));
        if Before(order, y, z) {
          var i, j :| 0 <= i < j < |order| && order[i] == y && order[j] == z;
          assert order'[i] == y && order'[j] == z;
        } else if z == v {
          var i :| 0 <= i < |order| && order[i] == y;
          assert order'[i] == y && order'[|order|] == v;
        } else {
          assert ColorOf(f, z) != BLACK;
        }
      }
    }
  }

  /** normalDFS: the visit of the first Kosaraju pass; each vertex joins the finish list
      when it turns BLACK, after every vertex its visit discovered. */
  method NormalDFS(g: Mat, v: int, vr: Visit, order: seq<int>) returns (r: Visit, order': seq<int>)
    requires Ready(g) && 0 <= v < g.nV && ColorOf(vr, v) == WHITE && Listed(vr, order)
    requires Closed(g, vr) && Sealed(g, vr) && Ahead(g, vr, order)
    requires forall u :: ColorOf(vr, u) == GRAY ==> Reachable(g, u, v)
    ensures Recolored(g, v, vr, r) && Listed(r, order')
    ensures Sealed(g, r) && Ahead(g, r, order')
    ensures |order| < |order'| && order'[..|order|] == order && order'[|order'| - 1] == v
    decreases Whites(g, vr)
  {
    var vr1 := vr.(color := vr.color[v := GRAY]);
    var adj := Adjacent(g, v);
    PassStart(g, v, vr, adj);
    GrayKeeps(g, v, vr, order);
    ReachRefl(g, v);
    var todo := adj;
    r, order' := vr1, order;
    while todo != {}
      invariant PassLoop(g, v, vr1, r, adj, todo) && Listed(r, order')
      invariant Sealed(g, r) && Ahead(g, r, order')
      invariant |order| <= |order'| && order'[..|order|] == order
      decreases todo
    {
      var w := Pick(todo);
      todo := todo - {w};
      if ColorOf(r, w) == WHITE {
        forall u | ColorOf(r, u) == GRAY ensures Reachable(g, u, w) {
          assert ColorOf(vr1, u) == GRAY;
          ReachAppend(g, u, v, w);
        }
        var r2, o2 := NormalDFS(g, w, r, order');
        PassStep(g, v, w, vr1, r, r2, adj, todo);
        assert o2[..|order|] == o2[..|order'|][..|order|];
        r, order' := r2, o2;
      } else {
        PassSkip(g, v, w, vr1, r, adj, todo);
      }
    }
    var f := r.(color := r.color[v := BLACK]);
    PassFinish(g, v, vr, vr1, r, f, adj);
    assert ColorOf(r, v) == GRAY && v !in order';
    FinishKeeps(g, v, r, f, order');
    r := f;
    order' := order' + [v];
    assert order'[..|order|] == order'[..|order'| - 1][..|order|];
  }

  /** dfsComponent: the visit of the second Kosaraju pass; each vertex joins the component
      when it turns GRAY, so the component gains exactly the vertices the visit discovers,
      all reachable from v. */
  method DfsComponent(g: Mat, v: int, vr: Visit, comp: set<int>) returns (r: Visit, comp': set<int>)
    requires Ready(g) && 0 <= v < g.nV && ColorOf(vr, v) == WHITE && Closed(g, vr)
    ensures Recolored(g, v, vr, r) && ReachedFrom(g, v, vr, r)
    ensures forall u :: u in comp' <==> u in comp || Discovered(vr, r, u)
    decreases Whites(g, vr)
  {
    var vr1 := vr.(color := vr.color[v := GRAY]);
    comp' := comp + {v};
    var adj := Adjacent(g, v);
    PassStart(g, v, vr, adj);
    ReachRefl(g, v);
    var todo := adj;
    r := vr1;
    while todo != {}
      invariant PassLoop(g, v, vr1, r, adj, todo) && ReachedFrom(g, v, vr1, r)
      invariant forall u :: u in comp' <==> u in comp || u == v || Discovered(vr1, r, u)
      decreases todo
    {
      var w := Pick(todo);
      todo := todo - {w};
      if ColorOf(r, w) == WHITE {
        var r2, c2 := DfsComponent(g, w, r, comp');
        PassStep(g, v, w, vr1, r, r2, adj, todo);
        assert SameColors(r, r);
        ReachStep(g, v, w, vr1, r, r, r2);
        forall u ensures u in c2 <==> u in comp || u == v || Discovered(vr1, r2, u) {
          if Discovered(r, r2, u) {
            assert Discovered(vr1, r2, u);
          }
          if Discovered(vr1, r2, u) && !Discovered(vr1, r, u) {
            assert Discovered(r, r2, u);
          }
        }
        r, comp' := r2, c2;
      } else {
        PassSkip(g, v, w, vr1, r, adj, todo);
      }
    }
    PassFinish(g, v, vr, vr1, r, r.(color := r.color[v := BLACK]), adj);
    r := r.(color := r.color[v := BLACK]);
  }

  lemma FirstPassDone(g: Mat, vr: Visit, order: seq<int>)
    requires Ahead(g, vr, order) && forall u :: 0 <= u < g.nV ==> ColorOf(vr, u) == BLACK
    requires forall u :: u in order <==> 0 <= u < g.nV
    ensures FinishesLater(g, order)
  {
    forall x, y | Escapes(g, x, y) ensures exists z :: MutuallyReachable(g, x, z) && Before(order, y, z)
    {
      var p :| IsPath(g, p) && p[0] == x && p[|p| - 1] == y;
      PathInRange(g, p, |p| - 1);
      var z :| MutuallyReachable(g, x, z) && (ColorOf(vr, z) != BLACK || Before(order, y, z));
      var q :| IsPath(g, q) && q[0] == x && q[|q| - 1] == z;
      PathInRange(g, q, |q| - 1);
    }
  }

  /** The first pass of stronglyConnectedComponents: normalDFS from every vertex still WHITE,
      in increasing order; the finish list holds every vertex exactly once, and whenever x
      reaches y but not the other way round, the class of x finishes after y. */
  method FinishOrder(g: Mat) returns (order: seq<int>)
    requires Ready(g)
    ensures Distinct(order) && forall u :: u in order <==> 0 <= u < g.nV
    ensures FinishesLater(g, order)
  {
    var vr := InitGraph(g.nV);
    SealedStart(g, vr);
    order := [];
    var i := 0;
    while i < g.nV
      invariant 0 <= i && (i <= g.nV || i == 0)
      invariant NoGray(vr) && Listed(vr, order)
      invariant Closed(g, vr) && Sealed(g, vr) && Ahead(g, vr, order)
      invariant forall u :: 0 <= u < i ==> ColorOf(vr, u) == BLACK
      invariant forall u :: !(0 <= u < g.nV) ==> ColorOf(vr, u) == WHITE
    {
      if ColorOf(vr, i) == WHITE {
        var r, o := NormalDFS(g, i, vr, order);
        forall u | !(0 <= u < g.nV) ensures ColorOf(r, u) == WHITE {
          assert !Discovered(vr, r, u);
        }
        vr, order := r, o;
      }
      i := i + 1;
    }
    FirstPassDone(g, vr, order);
  }

  /** Collections.reverse on the finish list. */
  function Reversed(s: seq<int>): (r: seq<int>)
    ensures |r| == |s| && forall k :: 0 <= k < |s| ==> r[k] == s[|s| - 1 - k]
    ensures forall u :: u in r <==> u in s
  {
    if |s| == 0 then [] else [s[|s| - 1]] + Reversed(s[..|s| - 1])
  }

  /** Some component holds u. */
  ghost predicate Covered(cs: set<set<int>>, u: int)
  {
    exists c :: c in cs && u in c
  }

  /** The components are nonempty, pairwise disjoint, and together hold exactly the
      vertices 0 .. n-1. */
  ghost predicate Partition(cs: set<set<int>>, n: int)
  {
    && (forall c :: c in cs ==> c != {})
    && (forall c1, c2 :: c1 in cs && c2 in cs && c1 != c2 ==> c1 !! c2)
    && (forall u :: 0 <= u < n <==> Covered(cs, u))
  }

  /** Each component holds, with any of its members, exactly the vertices mutually
      reachable with it in g. */
  ghost predicate Classes(g: Mat, cs: set<set<int>>)
  {
    forall c, u, w :: c in cs && u in c ==> (w in c <==> MutuallyReachable(g, u, w))
  }

  /** The invariant of the second pass, run on the transpose h of g: the BLACK vertices are
      split into the components found so far, each a class of mutual reachability. */
  ghost predicate CollectInv(g: Mat, h: Mat, vr: Visit, cs: set<set<int>>)
  {
    && NoGray(vr) && Closed(h, vr)
    && (forall u :: ColorOf(vr, u) != WHITE ==> 0 <= u < h.nV)
    && (forall c :: c in cs ==> c != {})
    && (forall c1, c2 :: c1 in cs && c2 in cs && c1 != c2 ==> c1 !! c2)
    && (forall u :: ColorOf(vr, u) == BLACK <==> Covered(cs, u))
    && Classes(g, cs)
  }

  /** Kosaraju's finish-order argument: when the second pass starts a visit of the
      transpose at rev[k] with every earlier entry BLACK, each vertex the visit can
      reach reaches rev[k] back. */
  lemma RootReachedBack(g: Mat, h: Mat, vr: Visit, order: seq<int>, rev: seq<int>, k: int, u: int)
    requires Transposed(g, h) && Transposed(h, g) && FinishesLater(g, order)
    requires Distinct(order) && rev == Reversed(order) && 0 <= k < |rev|
    requires Closed(h, vr) && NoGray(vr) && forall j :: 0 <= j < k ==> ColorOf(vr, rev[j]) == BLACK
    requires ColorOf(vr, u) == WHITE && Reachable(h, rev[k], u)
    ensures Reachable(h, u, rev[k])
  {
    var a := rev[k];
    if !Reachable(h, u, a) {
      TransposedReach(g, h, a, u);
      if Reachable(g, a, u) {
        TransposedReach(h, g, a, u);
        assert false;
      }
      assert Escapes(g, u, a);
      var z :| MutuallyReachable(g, u, z) && Before(order, a, z);
      var i, j :| 0 <= i < j < |order| && order[i] == a && order[j] == z;
      assert order[|order| - 1 - k] == a;
      assert i == |order| - 1 - k;
      assert rev[|order| - 1 - j] == z;
      assert ColorOf(vr, z) == BLACK;
      TransposedReach(h, g, u, z);
      var p :| IsPath(h, p) && p[0] == z && p[|p| - 1] == u;
      PathInRange(h, p, 0);
      BlackHoldsReachable(h, vr, z, u);
      assert false;
    }
  }

  /** The component a visit of the second pass collects is a class of mutual reachability. */
  lemma ClassesStep(g: Mat, h: Mat, vertex: int, vr: Visit, r: Visit, cs: set<set<int>>, comp: set<int>,
                    order: seq<int>, rev: seq<int>, k: int)
    requires Transposed(g, h) && Transposed(h, g) && FinishesLater(g, order)
    requires Distinct(order) && rev == Reversed(order) && 0 <= k < |rev| && rev[k] == vertex
    requires CollectInv(g, h, vr, cs) && 0 <= vertex < h.nV && ColorOf(vr, vertex) == WHITE
    requires forall j :: 0 <= j < k ==> ColorOf(vr, rev[j]) == BLACK
    requires Recolored(h, vertex, vr, r) && ReachedFrom(h, vertex, vr, r)
    requires forall u :: u in comp <==> Discovered(vr, r, u)
    ensures Classes(g, cs + {comp})
  {
    forall u | u in comp ensures Reachable(h, vertex, u) && Reachable(h, u, vertex) {
      RootReachedBack(g, h, vr, order, rev, k, u);
    }
    assert NoGray(r);
    forall c, u, w | c in cs + {comp} && u in c ensures w in c <==> MutuallyReachable(g, u, w) {
      if c == comp {
        if w in comp {
          ReachTrans(h, u, vertex, w);
          ReachTrans(h, w, vertex, u);
          TransposedReach(g, h, u, w);
          TransposedReach(g, h, w, u);
        }
        if MutuallyReachable(g, u, w) {
          TransposedReach(h, g, w, u);
          ReachTrans(h, vertex, u, w);
          forall c' | c' in cs && w in c' ensures u in c' {
            assert MutuallyReachable(g, w, u);
          }
          assert ColorOf(vr, w) == WHITE;
          BlackHoldsReachable(h, r, vertex, w);
        }
      }
    }
  }

  lemma CollectStep(g: Mat, h: Mat, vertex: int, vr: Visit, r: Visit, cs: set<set<int>>, comp: set<int>,
                    order: seq<int>, rev: seq<int>, k: int)
    requires Transposed(g, h) && Transposed(h, g) && FinishesLater(g, order)
    requires Distinct(order) && rev == Reversed(order) && 0 <= k < |rev| && rev[k] == vertex
    requires CollectInv(g, h, vr, cs) && 0 <= vertex < h.nV && ColorOf(vr, vertex) == WHITE
    requires forall j :: 0 <= j < k ==> ColorOf(vr, rev[j]) == BLACK
    requires Recolored(h, vertex, vr, r) && ReachedFrom(h, vertex, vr, r)
    requires forall u :: u in comp <==> Discovered(vr, r, u)
    ensures CollectInv(g, h, r, cs + {comp})
    ensures forall j :: 0 <= j <= k ==> ColorOf(r, rev[j]) == BLACK
  {
    forall j | 0 <= j < k ensures ColorOf(r, rev[j]) == BLACK {
      assert ColorOf(vr, rev[j]) == BLACK;
    }
    assert vertex in comp;
    forall c | c in cs ensures c !! comp {
      forall u | u in c ensures u !in comp {
        assert ColorOf(vr, u) == BLACK;
      }
    }
    forall u ensures ColorOf(r, u) == BLACK <==> Covered(cs + {comp}, u) {
      if ColorOf(r, u) == BLACK && !Discovered(vr, r, u) {
        assert ColorOf(vr, u) == BLACK;
        var c :| c in cs && u in c;
        assert c in cs + {comp};
      }
      if u in comp {
        assert comp in cs + {comp};
      }
      if Covered(cs + {comp}, u) {
        var c :| c in cs + {comp} && u in c;
        if c in cs {
          assert Covered(cs, u);
          assert ColorOf(vr, u) == BLACK;
        }
      }
    }
    ClassesStep(g, h, vertex, vr, r, cs, comp, order, rev, k);
  }

  lemma CollectStart(g: Mat, h: Mat, vr: Visit)
    requires forall u :: ColorOf(vr, u) == WHITE
    ensures CollectInv(g, h, vr, {})
  {
  }

  lemma CollectDone(g: Mat, h: Mat, vr: Visit, cs: set<set<int>>, rev: seq<int>)
    requires CollectInv(g, h, vr, cs)
    requires forall u :: u in rev <==> 0 <= u < h.nV
    requires forall j :: 0 <= j < |rev| ==> ColorOf(vr, rev[j]) == BLACK
    ensures Partition(cs, h.nV)
  {
    forall u | 0 <= u < h.nV ensures Covered(cs, u) {
      assert u in rev;
      var j :| 0 <= j < |rev| && rev[j] == u;
      assert ColorOf(vr, rev[j]) == BLACK;
    }
  }

  /** One round of the second pass: when the vertex at position k of the list is still
      WHITE, dfsComponent from it adds one component. */
  method CollectFrom(g: Mat, h: Mat, vr: Visit, cs: set<set<int>>, order: seq<int>, rev: seq<int>, k: int)
    returns (r: Visit, cs': set<set<int>>)
    requires Ready(h) && Transposed(g, h) && Transposed(h, g) && FinishesLater(g, order)
    requires Distinct(order) && rev == Reversed(order) && 0 <= k < |rev| && 0 <= rev[k] < h.nV
    requires CollectInv(g, h, vr, cs) && forall j :: 0 <= j < k ==> ColorOf(vr, rev[j]) == BLACK
    ensures CollectInv(g, h, r, cs') && forall j :: 0 <= j <= k ==> ColorOf(r, rev[j]) == BLACK
  {
    var vertex := rev[k];
    r, cs' := vr, cs;
    if ColorOf(vr, vertex) == WHITE {
      var comp;
      r, comp := DfsComponent(h, vertex, vr, {});
      CollectStep(g, h, vertex, vr, r, cs, comp, order, rev, k);
      cs' := cs + {comp};
    } else {
      assert ColorOf(vr, vertex) == BLACK;
    }
  }

  /** The second pass of stronglyConnectedComponents on the transpose h of g: along the
      finish list reversed, dfsComponent from every vertex still WHITE, each visit giving
      one component; the components are exactly the classes of mutual reachability. */
  method Components(g: Mat, h: Mat, order: seq<int>) returns (cs: set<set<int>>)
    requires Ready(h) && Transposed(g, h) && Transposed(h, g)
    requires Distinct(order) && (forall u :: u in order <==> 0 <= u < h.nV) && FinishesLater(g, order)
    ensures Partition(cs, h.nV)
    ensures forall c, u, w :: c in cs && u in c ==> (w in c <==> MutuallyReachable(g, u, w))
  {
    var vr := InitGraph(h.nV);
    var rev := Reversed(order);
    cs := {};
    CollectStart(g, h, vr);
    var k := 0;
    while k < |rev|
      invariant 0 <= k <= |rev|
      invariant CollectInv(g, h, vr, cs)
      invariant forall j :: 0 <= j < k ==> ColorOf(vr, rev[j]) == BLACK
    {
      assert rev[k] in order;
      vr, cs := CollectFrom(g, h, vr, cs, order, rev, k);
      k := k + 1;
    }
    CollectDone(g, h, vr, cs, rev);
  }

  // ---------------------------------------------------------------- the cyclic sample of the test suite

  /** The matrix loadDataCyclicGraph builds: four vertices and the edges (0,1), (2,0),
      (1,2), (2,3), (0,3), one column each in that order. */
  function CyclicSample(): Mat
  {
    Mat([[SOURCE, TARGET, NONE, NONE, SOURCE],
         [TARGET, NONE, SOURCE, NONE, NONE],
         [NONE, SOURCE, TARGET, SOURCE, NONE],
         [NONE, NONE, NONE, TARGET, TARGET]], 4, 5)
  }

  lemma CyclicSampleArcs()
    ensures forall u, w :: Arc(CyclicSample(), u, w) <==> (u, w) in {(0, 1), (2, 0), (1, 2), (2, 3), (0, 3)}
  {
    var g := CyclicSample();
    forall u, w ensures Arc(g, u, w) <==> (u, w) in {(0, 1), (2, 0), (1, 2), (2, 3), (0, 3)} {
      if (u, w) == (0, 1) { assert Joins(g, 0, 0, 1); }
      if (u, w) == (2, 0) { assert Joins(g, 1, 2, 0); }
      if (u, w) == (1, 2) { assert Joins(g, 2, 1, 2); }
      if (u, w) == (2, 3) { assert Joins(g, 3, 2, 3); }
      if (u, w) == (0, 3) { assert Joins(g, 4, 0, 3); }
    }
  }

  /** No edge leaves 3, so 3 reaches only itself. */
  lemma CyclicSampleSink()
    ensures forall w :: Reachable(CyclicSample(), 3, w) ==> w == 3
  {
    var g := CyclicSample();
    CyclicSampleArcs();
    assert Succ(g, 3) == {};
    forall w | Reachable(g, 3, w) ensures w == 3 {
      ClosedHoldsReachable(g, {3}, 3, w);
    }
  }

  /** In the cyclic sample 0, 1 and 2 lie on the cycle 0, 1, 2, 0 and 3 is alone. */
  lemma CyclicSampleClass(u: int, w: int)
    ensures MutuallyReachable(CyclicSample(), u, w) <==> (0 <= u < 3 && 0 <= w < 3) || (u == 3 && w == 3)
  {
    var g := CyclicSample();
    CyclicSampleArcs();
    if 0 <= u < 3 && 0 <= w < 3 {
      assert IsPath(g, [u]);
      assert IsPath(g, [0, 1]) && IsPath(g, [1, 2]) && IsPath(g, [2, 0]);
      assert IsPath(g, [0, 1, 2]) && IsPath(g, [1, 2, 0]) && IsPath(g, [2, 0, 1]);
    }
    if u == 3 && w == 3 {
      assert IsPath(g, [3]);
    }
    if MutuallyReachable(g, u, w) {
      var p :| IsPath(g, p) && p[0] == u && p[|p| - 1] == w;
      PathInRange(g, p, 0);
      PathInRange(g, p, |p| - 1);
      CyclicSampleSink();
    }
  }

  /** The expectation of the stronglyConnectedComponents test: a partition of the cyclic
      sample into classes of mutual reachability can only be {0, 1, 2} and {3}. */
  lemma CyclicSampleComponents(cs: set<set<int>>)
    requires Partition(cs, 4) && Classes(CyclicSample(), cs)
    ensures cs == {{0, 1, 2}, {3}}
  {
    var g := CyclicSample();
    forall c, u | c in cs && u in c ensures c == (if u < 3 then {0, 1, 2} else {3}) {
      assert Covered(cs, u);
      forall w ensures w in c <==> w in (if u < 3 then {0, 1, 2} else {3}) {
        CyclicSampleClass(u, w);
      }
    }
    assert Covered(cs, 0) && Covered(cs, 3);
    var c0 :| c0 in cs && 0 in c0;
    var c3 :| c3 in cs && 3 in c3;
    assert c0 == {0, 1, 2} && c3 == {3};
    forall c | c in cs ensures c == {0, 1, 2} || c == {3} {
      var u :| u in c;
    }
  }
}

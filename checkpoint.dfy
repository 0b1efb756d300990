/** The checkpoint IncidMatrixDir: the same incidence-matrix design with Integer cells,
    1 at an edge's source, -1 at its target and 0 elsewhere (the opposite of the values
    the Incidence markers carry), and a topologicalSort that writes -2 over a picked row. */
module Checkpoint {
  import opened Incidences
  import opened Errors
  import opened Tables
  import opened Graphs
  import opened Scans
  import opened Traversal
  import opened Kahn

  /** The marker an Integer cell stands for. */
  function Decode(x: int): Incidence
  {
    if x == 1 then SOURCE else if x == -1 then TARGET else NONE
  }

  /** The snapshot of markers and counters the queries work on. */
  function CodeView(rows: seq<seq<int>>, nV: int, nE: nat): Mat
  {
    Mat(MapCells(rows, Decode), nV, nE)
  }

  /** Every cell holds one of the three codes the class writes. */
  ghost predicate Coded(rows: seq<seq<int>>)
  {
    forall j, i :: 0 <= j < |rows| && 0 <= i < |rows[j]| ==> -1 <= rows[j][i] <= 1
  }

  /** Deleting a column keeps every code in range. */
  lemma DropKeepsCoded(rows: seq<seq<int>>, limit: int, c: nat)
    requires Coded(rows)
    ensures Coded(DropColumn(rows, limit, c))
  {
    var d := DropColumn(rows, limit, c);
    forall k, x | 0 <= k < |d| && 0 <= x < |d[k]| ensures -1 <= d[k][x] <= 1 {
      if k < limit && c < |rows[k]| {
        assert d[k][x] == if x < c then rows[k][x] else rows[k][x + 1];
      }
    }
  }

  /** Every row of the copy has exactly nE cells. */
  ghost predicate Shaped(copy: seq<seq<int>>, nE: nat)
  {
    forall j :: 0 <= j < |copy| ==> |copy[j]| == nE
  }

  // ---------------------------------------------------------------- topologicalSort

  /** Row j of the copy holds a -1 (an incoming edge) or a -2 (already picked) among its first nE cells. */
  predicate Blocked(copy: seq<seq<int>>, nE: nat, j: int)
    requires 0 <= j < |copy|
  {
    exists i :: 0 <= i < nE && i < |copy[j]| && (copy[j][i] == -1 || copy[j][i] == -2)
  }

  /** getVertexWithoutIncomingEdge from row j on: the first row outside skip that is not
      blocked, or -1. The checkpoint skips nothing (skip is empty); the corrected sort
      skips the rows it has picked. */
  function PickFrom(copy: seq<seq<int>>, nE: nat, skip: set<int>, j: nat): (r: int)
    requires j <= |copy|
    ensures r == -1 || j <= r < |copy|
    ensures r >= 0 ==> r !in skip && !Blocked(copy, nE, r)
    ensures forall k :: j <= k < (if r == -1 then |copy| else r) ==> k in skip || Blocked(copy, nE, k)
    decreases |copy| - j
  {
    if j == |copy| then -1
    else if j !in skip && !Blocked(copy, nE, j) then j
    else PickFrom(copy, nE, skip, j + 1)
  }

  /** Cell (j, i) after removeOutcomoingEdge(v): v's first nE cells become -2; before that,
      a -1 in a column v sources (holds 1) has become 0. */
  function MarkedCell(copy: seq<seq<int>>, v: nat, nE: nat, j: nat, i: nat): int
    requires v < |copy| && j < |copy| && i < |copy[j]|
  {
    if j == v && i < nE then -2
    else if i < nE && i < |copy[v]| && copy[v][i] == 1 && copy[j][i] == -1 then 0
    else copy[j][i]
  }

  /** removeOutcomoingEdge(v) on the whole copy. */
  function Marked(copy: seq<seq<int>>, v: nat, nE: nat): (r: seq<seq<int>>)
    requires v < |copy|
    ensures |r| == |copy| && forall j :: 0 <= j < |copy| ==> |r[j]| == |copy[j]|
    ensures forall j, i :: 0 <= j < |copy| && 0 <= i < |copy[j]| ==> r[j][i] == MarkedCell(copy, v, nE, j, i)
  {
    seq(|copy|, j requires 0 <= j < |copy| =>
      seq(|copy[j]|, i requires 0 <= i < |copy[j]| => MarkedCell(copy, v, nE, j, i)))
  }

  /** The rounds of the checkpoint's topologicalSort still to go. A round that finds no row
      calls removeOutcomoingEdge(-1), which throws as soon as it reads row -1, that is,
      whenever there is a column; with no columns the -1 is stored. */
  function MarkRounds(copy: seq<seq<int>>, nE: nat, acc: seq<int>, k: nat): Result<seq<int>>
    decreases k
  {
    if k == 0 then Ok(acc)
    else
      var choice := PickFrom(copy, nE, {}, 0);
      if choice == -1 then
        (if nE == 0 then MarkRounds(copy, nE, acc + [-1], k - 1) else Err(IndexOutOfBounds))
      else MarkRounds(Marked(copy, choice, nE), nE, acc + [choice], k - 1)
  }

  /** The corrected rounds: a picked row is skipped because it was picked, not because of
      its -2 marks, which a graph without edges has no cell to hold. */
  function FixedRounds(copy: seq<seq<int>>, nE: nat, picked: set<int>, acc: seq<int>, k: nat): Result<seq<int>>
    decreases k
  {
    if k == 0 then Ok(acc)
    else
      var choice := PickFrom(copy, nE, picked, 0);
      if choice == -1 then Err(Unsupported)
      else FixedRounds(Marked(copy, choice, nE), nE, picked + {choice}, acc + [choice], k - 1)
  }

  /** The checkpoint's topologicalSort on matrix rows with snapshot g: Unsupported on a cyclic
      graph, NegativeArraySize for a negative count, else nV rounds on a copy of all rows. */
  ghost function MarkSpec(g: Mat, rows: seq<seq<int>>): Result<seq<int>>
  {
    if HasCycle(g) then Err(Unsupported)
    else if g.nV < 0 then Err(NegativeArraySize)
    else MarkRounds(rows, g.nE, [], g.nV)
  }

  /** The same with the corrected rounds. */
  ghost function FixedSpec(g: Mat, rows: seq<seq<int>>): Result<seq<int>>
  {
    if HasCycle(g) then Err(Unsupported)
    else if g.nV < 0 then Err(NegativeArraySize)
    else FixedRounds(rows, g.nE, {}, [], g.nV)
  }

  /** The loops of getVertexWithoutIncomingEdge (with the rows in skip passed over). */
  method PickVertex(copy: seq<seq<int>>, nE: nat, skip: set<int>) returns (choice: int)
    requires Shaped(copy, nE)
    ensures choice == PickFrom(copy, nE, skip, 0)
  {
    var i := 0;
    while i < |copy|
      invariant 0 <= i <= |copy|
      invariant forall k :: 0 <= k < i ==> k in skip || Blocked(copy, nE, k)
    {
      if i !in skip {
        var j := 0;
        while j < nE && copy[i][j] != -1 && copy[i][j] != -2
          invariant 0 <= j <= nE
          invariant forall k :: 0 <= k < j ==> copy[i][k] != -1 && copy[i][k] != -2
        {
          j := j + 1;
        }
        if j == nE {
          assert !Blocked(copy, nE, i);
          return i;
        }
        assert Blocked(copy, nE, i);
      }
      i := i + 1;
    }
    return -1;
  }

  /** v's row with the columns in cols: a -1 there becomes 0. */
  function Zeroed(row: seq<int>, cols: set<int>): (r: seq<int>)
    ensures |r| == |row| && forall i :: 0 <= i < |row| ==> r[i] == if i in cols && row[i] == -1 then 0 else row[i]
  {
    seq(|row|, i requires 0 <= i < |row| => if i in cols && row[i] == -1 then 0 else row[i])
  }

  /** The loops of removeOutcomoingEdge: collect the columns v sources, visit them in
      descending order zeroing their -1 cells in every row, then write -2 over v's row. */
  method RemoveOutgoingCodes(copy: seq<seq<int>>, v: nat, nE: nat) returns (d: seq<seq<int>>)
    requires Shaped(copy, nE) && v < |copy|
    ensures d == Marked(copy, v, nE)
  {
    var outcomingEdge: seq<int> := [];
    var i := 0;
    while i < nE
      invariant 0 <= i <= nE
      invariant forall x :: x in outcomingEdge <==> 0 <= x < i && copy[v][x] == 1
    {
      if copy[v][i] == 1 {
        outcomingEdge := outcomingEdge + [i];
      }
      i := i + 1;
    }
    // Collections.sort(..., reverseOrder()) on a list collected in ascending order.
    outcomingEdge := Reversed(outcomingEdge);
    ghost var outs := set x | 0 <= x < nE && copy[v][x] == 1;
    assert forall x :: x in outcomingEdge <==> x in outs;
    d := copy;
    ghost var done: set<int> := {};
    var p := 0;
    while p < |outcomingEdge|
      invariant 0 <= p <= |outcomingEdge| && |d| == |copy|
      invariant forall x :: x in done <==> exists q :: 0 <= q < p && outcomingEdge[q] == x
      invariant forall j :: 0 <= j < |copy| ==> d[j] == Zeroed(copy[j], done)
    {
      assert outcomingEdge[p] in outs;
      d := ZeroColumn(d, outcomingEdge[p], copy, done);
      done := done + {outcomingEdge[p]};
      p := p + 1;
    }
    assert done == outs;
    d := MarkRow(d, v, nE);
    assert forall j :: 0 <= j < |copy| ==> d[j] == Marked(copy, v, nE)[j];
  }

  /** The loop over the rows for one column e: its -1 cells become 0. */
  method ZeroColumn(d: seq<seq<int>>, e: nat, ghost copy: seq<seq<int>>, ghost done: set<int>) returns (d': seq<seq<int>>)
    requires |d| == |copy| && forall j :: 0 <= j < |copy| ==> e < |copy[j]| && d[j] == Zeroed(copy[j], done)
    ensures |d'| == |copy| && forall j :: 0 <= j < |copy| ==> d'[j] == Zeroed(copy[j], done + {e})
  {
    d' := d;
    var r := 0;
    while r < |d'|
      invariant 0 <= r <= |d'| && |d'| == |copy|
      invariant forall j :: 0 <= j < |copy| ==> d'[j] == Zeroed(copy[j], if j < r then done + {e} else done)
    {
      if d'[r][e] == -1 {
        d' := d'[r := d'[r][e := 0]];
      }
      assert d'[r] == Zeroed(copy[r], done + {e});
      r := r + 1;
    }
  }

  /** The last loop of removeOutcomoingEdge: v's first nE cells become -2. */
  method MarkRow(d: seq<seq<int>>, v: nat, nE: nat) returns (d': seq<seq<int>>)
    requires v < |d| && |d[v]| == nE
    ensures d' == d[v := Filled(nE, -2)]
  {
    d' := d;
    var k := 0;
    while k < nE
      invariant 0 <= k <= nE && |d'| == |d|
      invariant forall j :: 0 <= j < |d| && j != v ==> d'[j] == d[j]
      invariant |d'[v]| == nE && forall x :: 0 <= x < nE ==> d'[v][x] == if x < k then -2 else d[v][x]
    {
      d' := d'[v := d'[v][k := -2]];
      k := k + 1;
    }
    assert d'[v] == Filled(nE, -2);
  }

  /** The loop of the checkpoint's topologicalSort over a copy of the rows. */
  method MarkSortRounds(rows: seq<seq<int>>, nE: nat, nV: int) returns (r: Result<seq<int>>)
    requires Shaped(rows, nE) && 0 <= nV
    ensures r == MarkRounds(rows, nE, [], nV)
  {
    var copy := rows;
    var result: seq<int> := [];
    var i := 0;
    while i < nV
      invariant 0 <= i <= nV && Shaped(copy, nE)
      invariant MarkRounds(copy, nE, result, nV - i) == MarkRounds(rows, nE, [], nV)
    {
      var choice := PickVertex(copy, nE, {});
      if choice == -1 {
        if nE > 0 {
          return Err(IndexOutOfBounds);
        }
      } else {
        copy := RemoveOutgoingCodes(copy, choice, nE);
      }
      result := result + [choice];
      i := i + 1;
    }
    return Ok(result);
  }

  /** The loop of the corrected topologicalSort, remembering the picked rows. */
  method FixedSortRounds(rows: seq<seq<int>>, nE: nat, nV: int) returns (r: Result<seq<int>>)
    requires Shaped(rows, nE) && 0 <= nV
    ensures r == FixedRounds(rows, nE, {}, [], nV)
  {
    var copy := rows;
    var picked: set<int> := {};
    var result: seq<int> := [];
    var i := 0;
    while i < nV
      invariant 0 <= i <= nV && Shaped(copy, nE)
      invariant FixedRounds(copy, nE, picked, result, nV - i) == FixedRounds(rows, nE, {}, [], nV)
    {
      var choice := PickVertex(copy, nE, picked);
      if choice == -1 {
        return Err(Unsupported);
      }
      copy := RemoveOutgoingCodes(copy, choice, nE);
      picked := picked + {choice};
      result := result + [choice];
      i := i + 1;
    }
    return Ok(result);
  }

  // ---------------------------------------------------------------- why the marking sorts

  /** The copy after the rounds that picked `visited`: picked rows are -2, the -1 cells of
      the columns they source are 0, every other cell is the matrix's. */
  ghost predicate CopyInv(g: Mat, rows: seq<seq<int>>, copy: seq<seq<int>>, visited: set<int>)
  {
    && |copy| == |rows| && (forall j :: 0 <= j < |rows| ==> |copy[j]| == |rows[j]|)
    && forall j, i :: 0 <= j < |rows| && 0 <= i < g.nE && i < |rows[j]| ==> copy[j][i] == CopyCell(g, rows, visited, j, i)
  }

  /** What CopyInv expects at cell (j, i). */
  ghost function CopyCell(g: Mat, rows: seq<seq<int>>, visited: set<int>, j: int, i: int): int
    requires 0 <= j < |rows| && 0 <= i < |rows[j]|
  {
    if j in visited then -2 else if Gone(g, visited, i) && rows[j][i] == -1 then 0 else rows[j][i]
  }

  /** The markers of g are the decoded cells of rows. */
  ghost predicate Decodes(g: Mat, rows: seq<seq<int>>)
  {
    g.rows == MapCells(rows, Decode)
  }

  /** An unpicked row is blocked in the copy exactly when it has a TARGET left in Kahn's residual. */
  lemma RowAgrees(g: Mat, rows: seq<seq<int>>, copy: seq<seq<int>>, c: Mat, visited: set<int>, k: int)
    requires Decodes(g, rows) && Fits(g) && Coded(rows) && CopyInv(g, rows, copy, visited) && Residual(g, c, visited)
    requires 0 <= k < |rows| && k !in visited
    ensures Blocked(copy, g.nE, k) <==> !NoIncoming(c, k)
  {
    if Blocked(copy, g.nE, k) {
      var i :| 0 <= i < g.nE && i < |copy[k]| && (copy[k][i] == -1 || copy[k][i] == -2);
      assert Cell(g, k, i) == Decode(rows[k][i]);
      assert Cell(c, k, i) == TARGET;
    }
    if !NoIncoming(c, k) {
      var i :| 0 <= i < c.nE && Cell(c, k, i) == TARGET;
      assert Cell(g, k, i) == Decode(rows[k][i]);
      assert copy[k][i] == -1;
    }
  }

  /** The pick of the corrected sort is Kahn's pick; with at least one column so is the checkpoint's. */
  lemma {:induction false} PickAgrees(g: Mat, rows: seq<seq<int>>, copy: seq<seq<int>>, c: Mat, visited: set<int>, j: nat)
    requires Decodes(g, rows) && Fits(g) && Coded(rows) && CopyInv(g, rows, copy, visited) && Residual(g, c, visited)
    requires j <= |rows|
    ensures PickFrom(copy, g.nE, visited, j) == FreeFrom(c, visited, j)
    ensures g.nE > 0 ==> PickFrom(copy, g.nE, {}, j) == FreeFrom(c, visited, j)
    decreases |rows| - j
  {
    if j < |rows| {
      PickAgrees(g, rows, copy, c, visited, j + 1);
      if j !in visited {
        RowAgrees(g, rows, copy, c, visited, j);
      } else if g.nE > 0 {
        assert |rows[j]| == |g.rows[j]| == g.nE;
        assert 0 < |rows[j]| && rows[j][0] == rows[j][0];
        assert copy[j][0] == -2;
        assert Blocked(copy, g.nE, j);
      }
    }
  }

  /** One round keeps the copy in step with the picked set. */
  lemma MarkStep(g: Mat, rows: seq<seq<int>>, copy: seq<seq<int>>, visited: set<int>, v: int)
    requires Decodes(g, rows) && Fits(g) && CopyInv(g, rows, copy, visited)
    requires 0 <= v < |rows| && v !in visited
    ensures CopyInv(g, rows, Marked(copy, v, g.nE), visited + {v})
  {
    var d := Marked(copy, v, g.nE);
    var v' := visited + {v};
    forall j, i | 0 <= j < |rows| && 0 <= i < g.nE && i < |rows[j]|
      ensures d[j][i] == CopyCell(g, rows, v', j, i)
    {
      assert |rows[v]| == |g.rows[v]| == g.nE;
      assert Cell(g, v, i) == Decode(rows[v][i]);
      assert copy[v][i] == 1 <==> rows[v][i] == 1;
      if Gone(g, visited, i) {
        var s :| s in visited && Cell(g, s, i) == SOURCE;
        assert s in v';
      } else if rows[v][i] == 1 {
        assert Gone(g, v', i);
      } else {
        assert !Gone(g, v', i);
      }
    }
  }

  /** The remaining rounds on an acyclic well-formed graph all find a row and list a
      topological order; with at least one column the checkpoint's rounds are the same. */
  lemma {:induction false} MarkRoundsSucceed(g: Mat, rows: seq<seq<int>>, copy: seq<seq<int>>, c: Mat,
                                             visited: set<int>, acc: seq<int>, k: nat)
    requires Valid(g) && !HasCycle(g) && Decodes(g, rows) && Coded(rows)
    requires CopyInv(g, rows, copy, visited) && Residual(g, c, visited) && Prefix(g, visited, acc)
    requires |acc| + k == g.nV
    ensures FixedRounds(copy, g.nE, visited, acc, k).Ok?
    ensures TopoOrder(g, FixedRounds(copy, g.nE, visited, acc, k).value)
    ensures g.nE > 0 ==> MarkRounds(copy, g.nE, acc, k) == FixedRounds(copy, g.nE, visited, acc, k)
    decreases k
  {
    if k == 0 {
      PrefixComplete(g, visited, acc);
    } else {
      FreeExists(g, c, visited, acc);
      var ch := FreeVertex(c, visited);
      PickAgrees(g, rows, copy, c, visited, 0);
      RoundStep(g, c, visited, acc, ch, |g.rows|);
      MarkStep(g, rows, copy, visited, ch);
      MarkRoundsSucceed(g, rows, Marked(copy, ch, g.nE), Cleared(c, ch, |g.rows|), visited + {ch}, acc + [ch], k - 1);
    }
  }

  /** The first round starts from the matrix itself. */
  lemma StartAgrees(g: Mat, rows: seq<seq<int>>)
    requires Decodes(g, rows) && Fits(g)
    ensures CopyInv(g, rows, rows, {}) && Residual(g, g, {}) && Prefix(g, {}, [])
  {
    forall i | 0 <= i < g.nE ensures !Gone(g, {}, i) {
    }
  }

  /** The corrected sort on a well-formed graph: Unsupported exactly when the graph has a
      cycle, and otherwise a topological order of all its vertices. */
  lemma FixedSortCorrect(g: Mat, rows: seq<seq<int>>)
    requires Valid(g) && Decodes(g, rows) && Coded(rows)
    ensures FixedSpec(g, rows).Err? <==> HasCycle(g)
    ensures HasCycle(g) ==> FixedSpec(g, rows) == Err(Unsupported)
    ensures !HasCycle(g) ==> TopoOrder(g, FixedSpec(g, rows).value)
  {
    if !HasCycle(g) {
      StartAgrees(g, rows);
      MarkRoundsSucceed(g, rows, rows, g, {}, [], g.nV);
    }
  }

  /** The checkpoint's sort agrees with the corrected one, and so is correct, as soon as the
      graph has a column to write -2 into. */
  lemma MarkSortCorrect(g: Mat, rows: seq<seq<int>>)
    requires Valid(g) && Decodes(g, rows) && Coded(rows) && g.nE > 0
    ensures MarkSpec(g, rows) == FixedSpec(g, rows)
    ensures MarkSpec(g, rows).Err? <==> HasCycle(g)
    ensures !HasCycle(g) ==> TopoOrder(g, MarkSpec(g, rows).value)
  {
    FixedSortCorrect(g, rows);
    if !HasCycle(g) {
      StartAgrees(g, rows);
      MarkRoundsSucceed(g, rows, rows, g, {}, [], g.nV);
    }
  }

  /** Two vertices and no edge: the checkpoint's sort lists vertex 0 twice, because no row
      can be marked, while the corrected sort lists both vertices. */
  lemma EdgelessSortRepeats()
    ensures Valid(Mat([[], []], 2, 0)) && !HasCycle(Mat([[], []], 2, 0))
    ensures MarkSpec(Mat([[], []], 2, 0), [[], []]) == Ok([0, 0])
    ensures !TopoOrder(Mat([[], []], 2, 0), [0, 0])
    ensures FixedSpec(Mat([[], []], 2, 0), [[], []]) == Ok([0, 1])
  {
    EdgelessAcyclic();
    EdgelessMarkRounds();
    EdgelessFixedRounds();
    assert [0, 0][0] == [0, 0][1];
  }

  /** Two empty rows form a well-formed graph without cycles. */
  lemma EdgelessAcyclic()
    ensures Valid(Mat([[], []], 2, 0)) && !HasCycle(Mat([[], []], 2, 0))
  {
    var g := Mat([[], []], 2, 0);
    assert forall p :: IsCycle(g, p) ==> Arc(g, p[0], p[1]);
  }

  /** The checkpoint's rounds on two empty rows pick row 0 both times. */
  lemma EdgelessMarkRounds()
    ensures MarkRounds([[], []], 0, [], 2) == Ok([0, 0])
  {
    var rows: seq<seq<int>> := [[], []];
    assert PickFrom(rows, 0, {}, 0) == 0;
    assert Marked(rows, 0, 0) == rows;
    assert [0] + [0] == [0, 0] && [] + [0] == [0];
    assert MarkRounds(rows, 0, [0], 1) == MarkRounds(rows, 0, [0, 0], 0);
    assert MarkRounds(rows, 0, [], 2) == MarkRounds(rows, 0, [0], 1);
  }

  /** The corrected rounds on two empty rows pick row 0, then row 1. */
  lemma EdgelessFixedRounds()
    ensures FixedRounds([[], []], 0, {}, [], 2) == Ok([0, 1])
  {
    var rows: seq<seq<int>> := [[], []];
    assert PickFrom(rows, 0, {}, 0) == 0;
    assert Marked(rows, 0, 0) == rows;
    assert [] + [0] == [0] && [0] + [1] == [0, 1];
    assert {} + {0} == {0} && {0} + {1} == {0, 1};
    assert PickFrom(rows, 0, {0}, 0) == 1;
    assert Marked(rows, 1, 0) == rows;
    assert FixedRounds(rows, 0, {0}, [0], 1) == FixedRounds(rows, 0, {0, 1}, [0, 1], 0);
    assert FixedRounds(rows, 0, {}, [], 2) == FixedRounds(rows, 0, {0}, [0], 1);
  }

  /** One edge (0, 1): the pairs getEdges reports are the graph's edges turned around. */
  lemma OneEdgeReversed()
    ensures EdgeSet(CodeView([[1], [-1]], 2, 1)) == {(0, 1)}
    ensures Flipped(EdgeSet(CodeView([[1], [-1]], 2, 1))) == {(1, 0)}
  {
    var g := CodeView([[1], [-1]], 2, 1);
    assert Joins(g, 0, 0, 1);
    forall s, t ensures Arc(g, s, t) <==> (s, t) == (0, 1) {
      InEdgeSet(g, s, t);
    }
    forall e ensures e in EdgeSet(g) <==> e == (0, 1) {
      InEdgeSet(g, e.0, e.1);
    }
  }

  /** addEdge's new column, for a pair no column joins yet: the view gains that column,
      the codes stay in range, and a well-formed view stays well-formed and gains the edge. */
  lemma AddedCodeColumn(rows: seq<seq<int>>, nV: int, nE: nat, s: int, t: int)
    requires Fits(CodeView(rows, nV, nE)) && 0 <= s < nV && 0 <= t < nV
    requires forall i :: 0 <= i < nE ==> !Joins(CodeView(rows, nV, nE), i, s, t)
    ensures CodeView(PushColumn(rows, NewColumn(nV, s, t, 1, -1, 0)), nV, nE + 1) == WithColumn(CodeView(rows, nV, nE), s, t)
    ensures Coded(rows) ==> Coded(PushColumn(rows, NewColumn(nV, s, t, 1, -1, 0)))
    ensures Valid(CodeView(rows, nV, nE)) ==>
      Valid(CodeView(PushColumn(rows, NewColumn(nV, s, t, 1, -1, 0)), nV, nE + 1)) &&
      EdgeSet(CodeView(PushColumn(rows, NewColumn(nV, s, t, 1, -1, 0)), nV, nE + 1)) ==
        EdgeSet(CodeView(rows, nV, nE)) + (if s != t then {(s, t)} else {})
  {
    var g := CodeView(rows, nV, nE);
    MapPushColumn(rows, NewColumn(nV, s, t, 1, -1, 0), Decode);
    MapNewColumn(nV, s, t, 1, -1, 0, Decode);
    if Valid(g) {
      WithColumnEdges(g, s, t);
    }
  }

  /** The matrix loadDataGraph builds in this version's coding: the edges (0,1), (0,2),
      (1,2), (2,3), (0,3), one column each, 1 at the source and -1 at the target. */
  function SampleCodes(): seq<seq<int>>
  {
    [[1, 1, 0, 0, 1],
     [-1, 0, 1, 0, 0],
     [0, -1, -1, 1, 0],
     [0, 0, 0, -1, -1]]
  }

  /** The expectation of this version's topologicalSort test: the sample, which has
      columns for the -2 marks, sorts to 0, 1, 2, 3. */
  lemma SampleSortCoded()
    ensures MarkSpec(CodeView(SampleCodes(), 4, 5), SampleCodes()) == Ok([0, 1, 2, 3])
  {
    var rows := SampleCodes();
    var g := CodeView(rows, 4, 5);
    forall j | 0 <= j < 4 ensures g.rows[j] == SampleGraph().rows[j] {
      forall i | 0 <= i < 5 ensures g.rows[j][i] == SampleGraph().rows[j][i] {
        assert g.rows[j][i] == Decode(rows[j][i]);
      }
    }
    assert g == SampleGraph();
    SampleArcs();
    SampleAcyclic();
    MarkSortCorrect(g, rows);
    SampleOrderUnique(MarkSpec(g, rows).value);
  }

  // ---------------------------------------------------------------- the class

  class IncidMatrixDir {
    var numberOfVertices: int
    var numberOfEdge: nat
    var matrix: seq<seq<int>>

    /** The decoded markers and the two counters as one value. */
    function View(): Mat
      reads this
    {
      CodeView(matrix, numberOfVertices, numberOfEdge)
    }

    /** An empty graph. */
    constructor ()
      ensures matrix == [] && View() == Mat([], 0, 0) && Valid(View()) && Coded(matrix)
    {
      numberOfVertices := 0;
      numberOfEdge := 0;
      matrix := [];
    }

    /** addVertex: a new row of numberOfEdge zeros; returns the new vertex. */
    method AddVertex() returns (v: int)
      modifies this
      ensures matrix == old(matrix) + [Filled(numberOfEdge, 0)] && numberOfEdge == old(numberOfEdge)
      ensures View() == WithRow(old(View())) && v == old(numberOfVertices)
      ensures old(Coded(matrix)) ==> Coded(matrix)
      ensures old(Consistent(View())) ==> Consistent(View())
      ensures old(Valid(View())) ==> Valid(View()) && EdgeSet(View()) == old(EdgeSet(View()))
    {
      ghost var g := View();
      var newVertex: seq<int> := [];
      var i := 0;
      while i < numberOfEdge
        invariant 0 <= i <= numberOfEdge
        invariant newVertex == Filled(i, 0)
      {
        newVertex := newVertex + [0];
        i := i + 1;
      }
      MapAppendRow(matrix, newVertex, Decode);
      MapFilled(numberOfEdge, 0, Decode);
      matrix := matrix + [newVertex];
      numberOfVertices := numberOfVertices + 1;
      if Consistent(g) {
        WithRowConsistent(g);
      }
      if Valid(g) {
        WithRowKeepsEdges(g);
      }
      v := numberOfVertices - 1;
    }

    /** getVertices: the integers 0 .. numberOfVertices-1. */
    method GetVertices() returns (vs: set<int>)
      ensures forall v :: v in vs <==> 0 <= v < numberOfVertices
    {
      vs := {};
      var i := 0;
      while i < numberOfVertices
        invariant 0 <= i && (i <= numberOfVertices || i == 0)
        invariant forall v :: v in vs <==> 0 <= v < i
      {
        vs := vs + {i};
        i := i + 1;
      }
    }

    /** getEdges as written: per column, the row holding -1 is taken as the source and the
        row holding 1 as the target, so every pair comes out reversed. */
    method GetEdges() returns (es: set<(int, int)>)
      requires Consistent(View())
      ensures es == Flipped(EdgeSet(View()))
      ensures forall s, t :: (s, t) in es <==> Arc(View(), t, s)
    {
      ghost var g := View();
      es := {};
      var i := 0;
      while i < numberOfEdge
        invariant 0 <= i <= numberOfEdge
        invariant es == Flipped(EdgesBelow(g, i))
      {
        var one, minusOne := ColumnEnds(View(), i);
        ColumnStep(g, i, one, minusOne);
        if minusOne.Some? && one.Some? {
          es := es + {(minusOne.value, one.value)};
        }
        i := i + 1;
      }
      EdgesBelowAll(g);
      forall s, t ensures (s, t) in es <==> Arc(g, t, s) {
        InEdgeSet(g, t, s);
        assert (s, t) in Flipped(EdgeSet(g)) <==> (t, s) in EdgeSet(g);
      }
    }

    /** getEdges read with the encoding addEdge writes (1 at the source): the edge set itself. */
    method GetEdgesFixed() returns (es: set<(int, int)>)
      requires Consistent(View())
      ensures es == EdgeSet(View())
      ensures forall s, t :: (s, t) in es <==> Arc(View(), s, t)
    {
      es := EdgeScan(View());
      forall s, t ensures (s, t) in es <==> Arc(View(), s, t) {
        InEdgeSet(View(), s, t);
      }
    }

    /** containsVertex: holds for every vertex, for the count itself and for every negative integer. */
    method ContainsVertex(i: int) returns (b: bool)
      ensures 0 <= i ==> (b <==> i in Vertices(numberOfVertices) || i == numberOfVertices)
      ensures i < 0 ==> b == (i <= numberOfVertices)
    {
      b := numberOfVertices >= i;
    }

    /** removeVertex: fails only above the vertex count; `matrix.remove(Integer)` removes
        no row, so only the count drops. */
    method RemoveVertex(i: int) returns (o: Outcome)
      modifies this
      ensures o.Fail? <==> old(numberOfVertices) < i
      ensures o.Fail? ==> o.error == NoSuchElement && matrix == old(matrix) && View() == old(View())
      ensures o.Pass? ==> matrix == old(matrix) && numberOfEdge == old(numberOfEdge)
      ensures o.Pass? ==> numberOfVertices == old(numberOfVertices) - 1
      ensures o.Pass? && old(Consistent(View())) ==> Consistent(View())
      ensures o.Pass? ==> forall a, b :: Arc(View(), a, b) <==>
        old(Arc(View(), a, b)) && a != old(numberOfVertices) - 1 && b != old(numberOfVertices) - 1
    {
      if numberOfVertices < i {
        return Fail(NoSuchElement);
      }
      ghost var g := View();
      numberOfVertices := numberOfVertices - 1;
      FewerVertices(g, numberOfVertices);
      return Pass;
    }

    /** addEdge(s, t): IllegalArgument unless both ends are vertices; nothing happens when a
        column already has 1 at s and -1 at t; otherwise the first numberOfVertices rows gain
        a cell, 1 at s, -1 at t and 0 elsewhere. */
    method AddEdge(s: int, t: int) returns (o: Outcome)
      requires Consistent(View())
      modifies this
      ensures o.Fail? <==> !(0 <= s < old(numberOfVertices) && 0 <= t < old(numberOfVertices))
      ensures o.Fail? ==> o.error == IllegalArgument
      ensures o.Fail? || old(Arc(View(), s, t)) ==> matrix == old(matrix) && View() == old(View())
      ensures o.Pass? && !old(Arc(View(), s, t)) ==>
        matrix == PushColumn(old(matrix), NewColumn(old(numberOfVertices), s, t, 1, -1, 0)) &&
        View() == WithColumn(old(View()), s, t)
      ensures old(Coded(matrix)) ==> Coded(matrix)
      ensures o.Pass? && old(Valid(View())) ==>
        Valid(View()) && EdgeSet(View()) == old(EdgeSet(View())) + (if s != t then {(s, t)} else {})
    {
      if s >= numberOfVertices || t >= numberOfVertices || s < 0 || t < 0 {
        return Fail(IllegalArgument);
      }
      ghost var g := View();
      ghost var m := matrix;
      var found := FindColumn(View(), s, t);
      JoinScanInRange(g, s, t);
      if found.value != -1 {
        return Pass;
      }
      var col := NewColumn(numberOfVertices, s, t, 1, -1, 0);
      var i := 0;
      while i < numberOfVertices
        invariant numberOfVertices == g.nV && numberOfEdge == g.nE
        invariant 0 <= i <= numberOfVertices && |matrix| == |m|
        invariant forall j :: 0 <= j < i ==> matrix[j] == m[j] + [col[j]]
        invariant forall j :: i <= j < |m| ==> matrix[j] == m[j]
      {
        if i == s {
          matrix := matrix[i := matrix[i] + [1]];
        } else if i == t {
          matrix := matrix[i := matrix[i] + [-1]];
        } else {
          matrix := matrix[i := matrix[i] + [0]];
        }
        i := i + 1;
      }
      numberOfEdge := numberOfEdge + 1;
      assert matrix == PushColumn(m, col);
      AddedCodeColumn(m, g.nV, g.nE, s, t);
      return Pass;
    }

    /** containsEdge(s, t): IllegalArgument unless both ends are vertices, else whether (s, t) is an edge. */
    method ContainsEdge(s: int, t: int) returns (r: Result<bool>)
      requires Consistent(View())
      ensures r.Err? <==> !(0 <= s < numberOfVertices && 0 <= t < numberOfVertices)
      ensures r.Err? ==> r.error == IllegalArgument
      ensures r.Ok? ==> (r.value <==> Arc(View(), s, t))
    {
      if s >= numberOfVertices || t >= numberOfVertices || s < 0 || t < 0 {
        return Err(IllegalArgument);
      }
      var found := FindColumn(View(), s, t);
      JoinScanInRange(View(), s, t);
      return Ok(found.value != -1);
    }

    /** removeEdge(s, t): only the upper bounds are checked, so a negative end reaches the
        scan and throws there; NoSuchElement when absent; otherwise the column is deleted
        from every row of the matrix. */
    method RemoveEdge(s: int, t: int) returns (o: Outcome)
      requires Consistent(View())
      modifies this
      ensures o == Fail(IllegalArgument) <==> s >= old(numberOfVertices) || t >= old(numberOfVertices)
      ensures o == Fail(IndexOutOfBounds) <==>
        s < old(numberOfVertices) && t < old(numberOfVertices) && JoinScan(old(View()), s, t).Err?
      ensures o.Pass? <==> old(Arc(View(), s, t))
      ensures o.Fail? ==> o.error in {IllegalArgument, IndexOutOfBounds, NoSuchElement} && matrix == old(matrix)
      ensures o.Pass? ==>
        matrix == DropColumn(old(matrix), |old(matrix)|, ColumnOf(old(View()), s, t)) &&
        View() == WithoutColumn(old(View()), |old(matrix)|, ColumnOf(old(View()), s, t))
      ensures old(Coded(matrix)) ==> Coded(matrix)
      ensures o.Pass? ==> Consistent(View()) && EdgeSet(View()) == old(EdgeSet(View())) - {(s, t)}
      ensures o.Pass? && old(Valid(View())) ==> Valid(View())
    {
      if s >= numberOfVertices || t >= numberOfVertices {
        return Fail(IllegalArgument);
      }
      ghost var g := View();
      ghost var m := matrix;
      var found := FindColumn(View(), s, t);
      if found.Err? {
        return Fail(IndexOutOfBounds);
      }
      var edgeIndex := found.value;
      if edgeIndex == -1 {
        assert !Arc(g, s, t);
        return Fail(NoSuchElement);
      }
      assert 0 <= s < |g.rows| && 0 <= t < |g.rows|;
      assert Joins(g, edgeIndex, s, t);
      assert forall k :: 0 <= k < |m| ==> |m[k]| == |g.rows[k]|;
      matrix := RemoveColumn(matrix, |matrix|, edgeIndex);
      numberOfEdge := numberOfEdge - 1;
      MapDropColumn(m, |m|, edgeIndex, Decode);
      WithoutColumnEdges(g, edgeIndex, s, t);
      if Coded(m) {
        DropKeepsCoded(m, |m|, edgeIndex);
      }
      return Pass;
    }

    /** getAdjacent(v): NoSuchElement unless v is a vertex, else the heads of v's edges. */
    method GetAdjacent(v: int) returns (r: Result<set<int>>)
      requires Consistent(View())
      ensures r.Err? <==> !(0 <= v < numberOfVertices)
      ensures r.Err? ==> r.error == NoSuchElement
      ensures r.Ok? ==> r.value == Succ(View(), v) && forall t :: t in r.value <==> Arc(View(), v, t)
    {
      if v >= numberOfVertices || v < 0 {
        return Err(NoSuchElement);
      }
      var adj := Adjacent(View(), v);
      return Ok(adj);
    }

    /** isAdjacent(u, v): IllegalArgument unless both are vertices, else whether (u, v) is an edge. */
    method IsAdjacent(u: int, v: int) returns (r: Result<bool>)
      requires Consistent(View())
      ensures r.Err? <==> !(0 <= u < numberOfVertices && 0 <= v < numberOfVertices)
      ensures r.Err? ==> r.error == IllegalArgument
      ensures r.Ok? ==> (r.value <==> Arc(View(), u, v))
    {
      if u >= numberOfVertices || v >= numberOfVertices || u < 0 || v < 0 {
        return Err(IllegalArgument);
      }
      var found := FindColumn(View(), u, v);
      JoinScanInRange(View(), u, v);
      return Ok(found.value != -1);
    }

    /** size: the vertex count, which on a well-formed graph is the number of rows. */
    method Size() returns (n: int)
      ensures n == numberOfVertices
      ensures Valid(View()) ==> n == |matrix|
    {
      n := numberOfVertices;
    }

    /** isDirected: always. */
    method IsDirected() returns (d: bool)
      ensures d
    {
      d := true;
    }

    /** isCyclic: whether the graph has a cycle. */
    method IsCyclic() returns (cyclic: bool)
      requires Consistent(View())
      ensures cyclic <==> HasCycle(View())
    {
      cyclic := Traversal.IsCyclic(View());
    }

    /** isDAG as written: directed and cyclic, so it holds exactly on the graphs with a cycle. */
    method IsDAG() returns (dag: bool)
      requires Consistent(View())
      ensures dag <==> HasCycle(View())
    {
      var directed := IsDirected();
      var cyclic := IsCyclic();
      dag := directed && cyclic;
    }

    /** getBFSTree(v): IllegalArgument unless v is a vertex, else one breadth-first visit from v. */
    method GetBFSTree(v: int) returns (res: Result<Visit>, ghost enqueued: seq<int>)
      requires Consistent(View())
      ensures res.Err? <==> !(0 <= v < numberOfVertices)
      ensures res.Err? ==> res.error == IllegalArgument
      ensures res.Ok? ==> BfsTreeOf(View(), v, res.value, enqueued)
    {
      res, enqueued := BfsTree(View(), v);
    }

    /** getDFSTree(v): IllegalArgument unless v is a vertex, else one depth-first visit from v. */
    method GetDFSTree(v: int) returns (res: Result<Visit>)
      requires Consistent(View())
      ensures res.Err? <==> !(0 <= v < numberOfVertices)
      ensures res.Err? ==> res.error == IllegalArgument
      ensures res.Ok? ==> DfsTreeOf(View(), v, res.value)
    {
      res := DfsTree(View(), v);
    }

    /** getDFSTOTForest(v): the depth-first forest started at v. */
    method GetDFSTOTForest(v: int) returns (res: Result<Visit>)
      requires Consistent(View())
      ensures res.Err? <==> !(0 <= v < numberOfVertices)
      ensures res.Err? ==> res.error == IllegalArgument
      ensures res.Ok? ==> ForestOf(View(), res.value) && v in res.value.start && res.value.start[v] == 1
    {
      res := DfsForest(View(), v);
    }

    /** getDFSTOTForest(roots): the depth-first forest started at the given roots in turn. */
    method GetDFSTOTForestRoots(roots: seq<int>) returns (res: Result<Visit>)
      requires Consistent(View())
      ensures res.Err? <==> exists k :: 0 <= k < |roots| && !(0 <= roots[k] < numberOfVertices)
      ensures res.Err? ==> res.error == IllegalArgument
      ensures res.Ok? ==> ForestOf(View(), res.value)
      ensures res.Ok? && |roots| > 0 ==> roots[0] in res.value.start && res.value.start[roots[0]] == 1
    {
      res := DfsForestFrom(View(), roots);
    }

    /** topologicalSort as written: -2 marking on a copy of all rows. On a well-formed graph
        with at least one edge it fails exactly on a cycle and otherwise lists a
        topological order; without edges it repeats the first row (EdgelessSortRepeats). */
    method TopologicalSort() returns (r: Result<seq<int>>)
      requires Consistent(View())
      ensures r == MarkSpec(View(), matrix)
      ensures Valid(View()) && Coded(matrix) && numberOfEdge > 0 ==>
        (r.Ok? <==> !HasCycle(View())) && (r.Ok? ==> TopoOrder(View(), r.value))
    {
      var cyclic := IsCyclic();
      if cyclic {
        return Err(Unsupported);
      }
      if numberOfVertices < 0 {
        return Err(NegativeArraySize);
      }
      r := MarkSortRounds(matrix, numberOfEdge, numberOfVertices);
      if Valid(View()) && Coded(matrix) && numberOfEdge > 0 {
        MarkSortCorrect(View(), matrix);
      }
    }

    /** topologicalSort with the picked rows remembered: on a well-formed graph it fails
        exactly on a cycle and otherwise lists a topological order, edges or not. */
    method TopologicalSortFixed() returns (r: Result<seq<int>>)
      requires Consistent(View())
      ensures r == FixedSpec(View(), matrix)
      ensures Valid(View()) && Coded(matrix) ==>
        (r.Ok? <==> !HasCycle(View())) && (r.Ok? ==> TopoOrder(View(), r.value))
    {
      var cyclic := IsCyclic();
      if cyclic {
        return Err(Unsupported);
      }
      if numberOfVertices < 0 {
        return Err(NegativeArraySize);
      }
      r := FixedSortRounds(matrix, numberOfEdge, numberOfVertices);
      if Valid(View()) && Coded(matrix) {
        FixedSortCorrect(View(), matrix);
      }
    }

    /** stronglyConnectedComponents: the empty set. */
    method StronglyConnectedComponents() returns (cfc: set<set<int>>)
      ensures cfc == {}
    {
      cfc := {};
    }

    /** connectedComponents: the empty set. */
    method ConnectedComponents() returns (cc: set<set<int>>)
      ensures cc == {}
    {
      cc := {};
    }
  }
}

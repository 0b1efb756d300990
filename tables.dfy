/** Row and column edits on a matrix stored as a sequence of rows: the
    ArrayList-of-ArrayList shape every variant of the graph uses. */
module Tables {

  /** Applies f to every cell, keeping the shape. */
  function MapCells<T, U>(rows: seq<seq<T>>, f: T -> U): (r: seq<seq<U>>)
    ensures |r| == |rows|
    ensures forall j :: 0 <= j < |rows| ==> |r[j]| == |rows[j]|
    ensures forall j, i :: 0 <= j < |rows| && 0 <= i < |rows[j]| ==> r[j][i] == f(rows[j][i])
  {
    seq(|rows|, j requires 0 <= j < |rows| => MapRow(rows[j], f))
  }

  /** Applies f to every element of one row. */
  function MapRow<T, U>(row: seq<T>, f: T -> U): (r: seq<U>)
    ensures |r| == |row|
    ensures forall i :: 0 <= i < |row| ==> r[i] == f(row[i])
  {
    seq(|row|, i requires 0 <= i < |row| => f(row[i]))
  }

  /** A row of n copies of one cell: what addVertex appends. */
  function Filled<T>(n: nat, x: T): (r: seq<T>)
    ensures |r| == n && forall i :: 0 <= i < n ==> r[i] == x
  {
    seq(n, _ => x)
  }

  /** Row j gains col[j] at its end, for every j < |col|; the rows after stay as they are. */
  function PushColumn<T>(rows: seq<seq<T>>, col: seq<T>): (r: seq<seq<T>>)
    requires |col| <= |rows|
    ensures |r| == |rows|
    ensures forall j :: 0 <= j < |col| ==> r[j] == rows[j] + [col[j]]
    ensures forall j :: |col| <= j < |rows| ==> r[j] == rows[j]
  {
    seq(|rows|, j requires 0 <= j < |rows| => if j < |col| then rows[j] + [col[j]] else rows[j])
  }

  /** The column addEdge appends over n rows: src at s, tgt at t (s wins when s == t), none elsewhere. */
  function NewColumn<T>(n: nat, s: int, t: int, src: T, tgt: T, none: T): (r: seq<T>)
    ensures |r| == n
    ensures forall j :: 0 <= j < n ==> r[j] == (if j == s then src else if j == t then tgt else none)
  {
    seq(n, j => if j == s then src else if j == t then tgt else none)
  }

  /** Column c is deleted from every row j < limit that has it; later columns shift left by one. */
  function DropColumn<T>(rows: seq<seq<T>>, limit: int, c: nat): (r: seq<seq<T>>)
    ensures |r| == |rows|
    ensures forall j :: 0 <= j < |rows| && j < limit && c < |rows[j]| ==> r[j] == rows[j][..c] + rows[j][c + 1..]
    ensures forall j :: 0 <= j < |rows| && !(j < limit && c < |rows[j]|) ==> r[j] == rows[j]
  {
    seq(|rows|, j requires 0 <= j < |rows| =>
      if j < limit && c < |rows[j]| then rows[j][..c] + rows[j][c + 1..] else rows[j])
  }

  /** The row loop of removeEdge: column c leaves each of the first limit rows in turn. */
  method RemoveColumn<T>(rows: seq<seq<T>>, limit: int, c: nat) returns (r: seq<seq<T>>)
    requires limit <= |rows| && forall j :: 0 <= j < limit ==> c < |rows[j]|
    ensures r == DropColumn(rows, limit, c)
  {
    r := rows;
    var j := 0;
    while j < limit
      invariant 0 <= j && (j <= limit || j == 0) && |r| == |rows|
      invariant forall k :: 0 <= k < j ==> r[k] == rows[k][..c] + rows[k][c + 1..]
      invariant forall k :: j <= k < |rows| ==> r[k] == rows[k]
    {
      r := r[j := r[j][..c] + r[j][c + 1..]];
      j := j + 1;
    }
  }

  /** Cell (j, i) replaced by x. */
  function SetCell<T>(rows: seq<seq<T>>, j: nat, i: nat, x: T): (r: seq<seq<T>>)
    requires j < |rows| && i < |rows[j]|
    ensures |r| == |rows| && r[j] == rows[j][i := x]
    ensures forall k :: 0 <= k < |rows| && k != j ==> r[k] == rows[k]
  {
    rows[j := rows[j][i := x]]
  }

  lemma MapAppendRow<T, U>(rows: seq<seq<T>>, row: seq<T>, f: T -> U)
    ensures MapCells(rows + [row], f) == MapCells(rows, f) + [MapRow(row, f)]
  {
  }

  lemma MapPushColumn<T, U>(rows: seq<seq<T>>, col: seq<T>, f: T -> U)
    requires |col| <= |rows|
    ensures MapCells(PushColumn(rows, col), f) == PushColumn(MapCells(rows, f), MapRow(col, f))
  {
    var a := MapCells(PushColumn(rows, col), f);
    var b := PushColumn(MapCells(rows, f), MapRow(col, f));
    forall j | 0 <= j < |rows| ensures a[j] == b[j] {
      if j < |col| {
        assert a[j] == MapRow(rows[j] + [col[j]], f);
        assert MapRow(rows[j] + [col[j]], f) == MapRow(rows[j], f) + [f(col[j])];
      }
    }
  }

  lemma MapDropColumn<T, U>(rows: seq<seq<T>>, limit: int, c: nat, f: T -> U)
    ensures MapCells(DropColumn(rows, limit, c), f) == DropColumn(MapCells(rows, f), limit, c)
  {
    var a := MapCells(DropColumn(rows, limit, c), f);
    var b := DropColumn(MapCells(rows, f), limit, c);
    forall j | 0 <= j < |rows| ensures a[j] == b[j] {
      if j < limit && c < |rows[j]| {
        assert MapRow(rows[j][..c] + rows[j][c + 1..], f) == MapRow(rows[j], f)[..c] + MapRow(rows[j], f)[c + 1..];
      }
    }
  }

  lemma MapNewColumn<T, U>(n: nat, s: int, t: int, src: T, tgt: T, none: T, f: T -> U)
    ensures MapRow(NewColumn(n, s, t, src, tgt, none), f) == NewColumn(n, s, t, f(src), f(tgt), f(none))
  {
  }

  lemma MapFilled<T, U>(n: nat, x: T, f: T -> U)
    ensures MapRow(Filled(n, x), f) == Filled(n, f(x))
  {
  }
}

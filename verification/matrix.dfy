/** The `Matrix<T>` container: a vector of row vectors, indexed
    `m[row][col]`, whose `Resize` never shrinks. */
module Matrices {
  import opened Options

  /** Row-major storage: `m[i]` is row i and `m[i][j]` the cell in row i,
      column j.  Rows may differ in length (nothing in the container keeps
      them equal). */
  type Matrix<T> = seq<seq<T>>

  function NumRows<T>(m: Matrix<T>): nat {
    |m|
  }

  /** The width of row 0, taken as the width of the whole matrix. */
  function NumCols<T>(m: Matrix<T>): nat {
    if |m| == 0 then 0 else |m[0]|
  }

  /** Every row has the width of row 0. */
  ghost predicate Rectangular<T>(m: Matrix<T>) {
    forall i :: 0 <= i < |m| ==> |m[i]| == NumCols(m)
  }

  /** Every cell (i, j) with i < rows and j < cols can be addressed. */
  ghost predicate Covers<T>(m: Matrix<T>, rows: nat, cols: nat) {
    rows <= |m| && forall i :: 0 <= i < rows ==> cols <= |m[i]|
  }

  /** `GetSize(rows, cols)`: the row count and row 0's width (0 when there
      are no rows), the same pair `NumRows` and `NumCols` report. */
  function GetSize<T>(m: Matrix<T>): (size: (nat, nat))
    ensures size == (NumRows(m), NumCols(m))
    ensures size.0 == 0 ==> size.1 == 0
  {
    var rows := |m|;
    (rows, if rows > 0 then |m[0]| else 0)
  }

  /** `std::vector::resize(n)` on one row: truncate, or extend with the
      value-initialised `fill`. */
  function ResizeRow<T>(row: seq<T>, n: nat, fill: T): (r: seq<T>)
    ensures |r| == n
    ensures forall j :: 0 <= j < n ==> r[j] == if j < |row| then row[j] else fill
  {
    if n <= |row| then row[..n] else row + seq(n - |row|, _ => fill)
  }

  /** `Resize(rows, cols)`.  The row count grows to `rows` if it is smaller
      (new rows are empty vectors) and never shrinks.  Then, only if row 0 is
      narrower than `cols`, every row is resized to exactly `cols`;
      otherwise no row changes width, so rows added in the first step stay
      empty.  Row 0 is read after the first step, so the matrix must not be
      left without rows. */
  function Resize<T>(m: Matrix<T>, rows: nat, cols: nat, fill: T): (r: Matrix<T>)
    requires |m| > 0 || rows > 0
    ensures |r| == if |m| < rows then rows else |m|
    ensures NumCols(m) < cols ==>
      forall i :: 0 <= i < |r| ==>
        (|r[i]| == cols &&
         forall j :: 0 <= j < cols ==> r[i][j] == if i < |m| && j < |m[i]| then m[i][j] else fill)
    ensures cols <= NumCols(m) ==>
      forall i :: 0 <= i < |r| ==> r[i] == if i < |m| then m[i] else []
  {
    var grown := if |m| < rows then m + seq(rows - |m|, _ => []) else m;
    if |grown[0]| < cols then seq(|grown|, i requires 0 <= i < |grown| => ResizeRow(grown[i], cols, fill))
    else grown
  }

  /** `Reset`: every cell becomes zero and no row changes length. */
  function Reset<T>(m: Matrix<T>, zero: T): (r: Matrix<T>)
    ensures |r| == |m|
    ensures forall i :: 0 <= i < |m| ==> |r[i]| == |m[i]|
    ensures forall i, j :: 0 <= i < |m| && 0 <= j < |m[i]| ==> r[i][j] == zero
  {
    seq(|m|, i requires 0 <= i < |m| => seq(|m[i]|, _ => zero))
  }

  /** `Clear`: no rows, so a 0 x 0 size. */
  function Clear<T>(m: Matrix<T>): (r: Matrix<T>)
    ensures GetSize(r) == (0, 0)
  {
    []
  }

  /** Assignment through `operator[]`: `m[i][j] = v` changes that one cell. */
  function Set<T>(m: Matrix<T>, i: nat, j: nat, v: T): (r: Matrix<T>)
    requires i < |m| && j < |m[i]|
    ensures |r| == |m| && forall k :: 0 <= k < |m| ==> |r[k]| == |m[k]|
    ensures r[i][j] == v
    ensures forall k, l :: 0 <= k < |m| && 0 <= l < |m[k]| && (k, l) != (i, j) ==> r[k][l] == m[k][l]
  {
    m[i := m[i][j := v]]
  }

  /** Whether `Resize` leaves every cell below (rows, cols) addressable:
      either row 0 was narrower (so all rows get exactly `cols` cells), or
      no row had to be added for a non-zero width and every existing row
      below `rows` was already wide enough. */
  lemma ResizeCovers<T>(m: Matrix<T>, rows: nat, cols: nat, fill: T)
    requires |m| > 0 || rows > 0
    ensures Covers(Resize(m, rows, cols, fill), rows, cols) <==>
      NumCols(m) < cols ||
      ((rows <= |m| || cols == 0) && forall i :: 0 <= i < rows && i < |m| ==> cols <= |m[i]|)
  {
    var r := Resize(m, rows, cols, fill);
    if cols <= NumCols(m) && |m| < rows && cols > 0 {
      assert |r[|m|]| < cols;
    }
  }

  /** Resizing a cleared matrix yields a `rows` x `cols` matrix of `fill`. */
  lemma ResizeEmpty<T>(rows: nat, cols: nat, fill: T)
    requires rows > 0
    ensures var r := Resize([], rows, cols, fill);
      |r| == rows && Rectangular(r) && NumCols(r) == cols &&
      forall i, j :: 0 <= i < rows && 0 <= j < cols ==> r[i][j] == fill
  {
    var r := Resize([], rows, cols, fill);
    if cols == 0 {
      assert forall i :: 0 <= i < rows ==> r[i] == [];
    }
  }

  // ---------------------------------------------------------------------
  // `Reset` and `Clear` as the source writes them.

  /** `memset(data, 0, count)` over a row whose cells are each `width`
      bytes wide: byte b of cell k lies at offset k * width + b and is zeroed
      exactly when that offset is below `count`. */
  function MemsetRow(row: seq<seq<bv8>>, width: nat, count: nat): (r: seq<seq<bv8>>)
    requires forall k :: 0 <= k < |row| ==> |row[k]| == width
    ensures |r| == |row| && forall k :: 0 <= k < |row| ==> |r[k]| == width
    ensures forall k, b :: 0 <= k < |row| && 0 <= b < width ==>
      r[k][b] == if k * width + b < count then 0 else row[k][b]
  {
    seq(|row|, k requires 0 <= k < |row| =>
      seq(width, b requires 0 <= b < width => if k * width + b < count then 0 else row[k][b]))
  }

  /** `Reset` as written passes the element count `_matrix[i].size()` as the
      byte count of `memset`, so only the first `size()` bytes of a row are
      cleared, not `size() * sizeof(T)`. */
  function ResetRowAsWritten(row: seq<seq<bv8>>, width: nat): (r: seq<seq<bv8>>)
    requires forall k :: 0 <= k < |row| ==> |row[k]| == width
    ensures |r| == |row|
  {
    MemsetRow(row, width, |row|)
  }

  /** The intended reset of one row: all `|row| * width` bytes. */
  function ResetRowBytes(row: seq<seq<bv8>>, width: nat): (r: seq<seq<bv8>>)
    requires forall k :: 0 <= k < |row| ==> |row[k]| == width
    ensures |r| == |row| && forall k :: 0 <= k < |row| ==> |r[k]| == width
    ensures forall k, b :: 0 <= k < |row| && 0 <= b < width ==> r[k][b] == 0
  {
    var r := MemsetRow(row, width, |row| * width);
    forall k, b | 0 <= k < |row| && 0 <= b < width
      ensures r[k][b] == 0
    {
      OffsetBound(k, b, width, |row|);
    }
    r
  }

  lemma OffsetBound(k: nat, b: nat, width: nat, n: nat)
    requires k < n && b < width
    ensures k * width + b < n * width
  {
    assert (k + 1) * width <= n * width;
  }

  /** A row of two 8-byte doubles whose bytes are all 0xFF (two NaNs):
      the as-written reset clears two bytes of the first cell and leaves
      the second cell untouched, while the intended reset clears both. */
  lemma ResetRowAsWrittenKeepsSecondCell()
    ensures var ones: seq<bv8> := seq(8, _ => 0xFF);
      var r := ResetRowAsWritten([ones, ones], 8);
      r[1] == ones && r[0][2] == 0xFF && r[0] != seq(8, _ => 0)
    ensures var ones: seq<bv8> := seq(8, _ => 0xFF);
      ResetRowBytes([ones, ones], 8) == [seq(8, _ => 0), seq(8, _ => 0)]
  {
    var ones: seq<bv8> := seq(8, _ => 0xFF);
    var r := ResetRowAsWritten([ones, ones], 8);
    assert r[0][2] == 0xFF;
    assert r[1] == ones;
    var z := ResetRowBytes([ones, ones], 8);
    assert z[0] == seq(8, _ => 0);
    assert z[1] == seq(8, _ => 0);
  }

  /** The bytes of a cell with its first `k` bytes zeroed. */
  function ZeroPrefix(cell: seq<bv8>, k: nat): seq<bv8> {
    seq(|cell|, b requires 0 <= b < |cell| => if b < k then 0 else cell[b])
  }

  /** Cell j of a row of `n` doubles after the as-written memset of `n`
      bytes: wholly inside the cleared bytes it is zero, wholly after them it
      keeps its value, and the one cell straddling byte `n` has its first
      `n - 8 * j` bytes cleared (`part(x, k)` is `x` with its first k bytes
      zeroed). */
  function CellAsWritten<T>(x: T, j: nat, n: nat, zero: T, part: (T, nat) -> T): T {
    if 8 * (j + 1) <= n then zero
    else if n <= 8 * j then x
    else part(x, n - 8 * j)
  }

  /** `Reset` as written, cell by cell, on a matrix of 8-byte doubles (the
      only matrices the HMM resets): row i loses its first |m[i]| bytes,
      not its |m[i]| cells. */
  function ResetAsWritten<T>(m: Matrix<T>, zero: T, part: (T, nat) -> T): (r: Matrix<T>)
    ensures |r| == |m| && forall i :: 0 <= i < |m| ==> |r[i]| == |m[i]|
  {
    seq(|m|, i requires 0 <= i < |m| =>
      seq(|m[i]|, j requires 0 <= j < |m[i]| => CellAsWritten(m[i][j], j, |m[i]|, zero, part)))
  }

  /** The cell-level reading of the as-written `Reset` is the byte-level
      one: on doubles given as their 8 bytes, with `part` zeroing a prefix,
      every row comes out exactly as the memset of `size()` bytes leaves it. */
  lemma ResetAsWrittenBytes(m: Matrix<seq<bv8>>)
    requires forall i, j :: 0 <= i < |m| && 0 <= j < |m[i]| ==> |m[i][j]| == 8
    ensures forall i :: 0 <= i < |m| ==>
      ResetAsWritten(m, seq(8, _ => 0), ZeroPrefix)[i] == ResetRowAsWritten(m[i], 8)
  {
    var r := ResetAsWritten(m, seq(8, _ => 0), ZeroPrefix);
    forall i | 0 <= i < |m| ensures r[i] == ResetRowAsWritten(m[i], 8) {
      var w := ResetRowAsWritten(m[i], 8);
      forall j | 0 <= j < |m[i]| ensures r[i][j] == w[j] {
        forall b | 0 <= b < 8 ensures r[i][j][b] == w[j][b] {
          assert w[j][b] == if j * 8 + b < |m[i]| then 0 else m[i][j][b];
        }
      }
    }
  }

  /** A row of fewer than eight doubles keeps every cell but the first
      through the as-written `Reset`, and a row of eight loses exactly its
      first: the reset never reaches the rest of the row. */
  lemma ResetAsWrittenKeepsRow<T>(m: Matrix<T>, zero: T, part: (T, nat) -> T, i: nat)
    requires i < |m| && 0 < |m[i]| <= 8
    ensures var r := ResetAsWritten(m, zero, part);
      && r[i][1..] == m[i][1..]
      && (|m[i]| == 8 ==> r[i][0] == zero)
      && (|m[i]| < 8 ==> r[i][0] == part(m[i][0], |m[i]|))
  {
    var r := ResetAsWritten(m, zero, part);
    assert r[i][1..] == m[i][1..] by {
      forall j | 1 <= j < |m[i]| ensures r[i][j] == m[i][j] {
      }
    }
  }

  /** `Clear` as written loops `i < _matrix[0].size()` over rows, so it
      touches a row that does not exist whenever the matrix has more columns
      than rows (`None` stands for that out-of-range access). */
  function ClearAsWritten<T>(m: Matrix<T>): (r: Option<Matrix<T>>)
    ensures r.None? <==> NumRows(m) < NumCols(m)
    ensures r.Some? ==> r.value == Clear(m)
  {
    if |m| > 0 && |m| < |m[0]| then None else Some([])
  }

  /** A 1 x 2 matrix: the as-written loop clears rows 0 and 1, and there is
      no row 1. */
  lemma ClearAsWrittenOneByTwo()
    ensures ClearAsWritten([[0, 0]]) == None
    ensures Clear([[0, 0]]) == []
  {
  }
}

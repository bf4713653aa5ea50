/** The `ColumnMatrix<T>` container used for the HMM lattices: the same
    vector-of-vectors storage as `Matrix`, but each stored vector is a
    column, so a cell is addressed `m[col][row]` and `Resize(rows, cols)`
    acts on the storage with its two arguments swapped. */
module ColumnMatrices {
  import opened Options
  import Matrices

  /** Column-major storage: `m[c]` is column c and `m[c][r]` the cell in
      row r of that column. */
  type ColumnMatrix<T> = seq<seq<T>>

  /** `operator[](c)`: the whole column c. */
  function Column<T>(m: ColumnMatrix<T>, c: nat): seq<T>
    requires c < |m|
  {
    m[c]
  }

  /** `GetColumn(c)` returns the same column as `operator[](c)`, so the
      row-r cell of column c is `GetColumn(m, c)[r]`. */
  function GetColumn<T>(m: ColumnMatrix<T>, c: nat): (col: seq<T>)
    requires c < |m|
    ensures col == Column(m, c)
  {
    m[c]
  }

  /** `GetSize(rows, cols)`: cols is the number of stored columns, rows the
      length of column 0 (0 without columns); the storage's row/column pair
      swapped. */
  function GetSize<T>(m: ColumnMatrix<T>): (size: (nat, nat))
    ensures size == (Matrices.NumCols(m), Matrices.NumRows(m))
    ensures size.1 == 0 ==> size.0 == 0
  {
    var cols := |m|;
    (if cols > 0 then |m[0]| else 0, cols)
  }

  /** `Resize(rows, cols)`: the column count grows to `cols` and never
      shrinks (new columns are empty); only if column 0 is shorter than
      `rows` is every column resized to exactly `rows`. */
  function Resize<T>(m: ColumnMatrix<T>, rows: nat, cols: nat, fill: T): (r: ColumnMatrix<T>)
    requires |m| > 0 || cols > 0
    ensures |r| == if |m| < cols then cols else |m|
    ensures GetSize(m).0 < rows ==>
      forall c :: 0 <= c < |r| ==>
        (|r[c]| == rows &&
         forall k :: 0 <= k < rows ==> r[c][k] == if c < |m| && k < |m[c]| then m[c][k] else fill)
    ensures rows <= GetSize(m).0 ==>
      forall c :: 0 <= c < |r| ==> r[c] == if c < |m| then m[c] else []
  {
    Matrices.Resize(m, cols, rows, fill)
  }

  /** `Reset`: every cell becomes zero, no column changes length. */
  function Reset<T>(m: ColumnMatrix<T>, zero: T): (r: ColumnMatrix<T>)
    ensures GetSize(r) == GetSize(m) && |r| == |m|
    ensures forall c :: 0 <= c < |m| ==> |r[c]| == |m[c]|
    ensures forall c, k :: 0 <= c < |m| && 0 <= k < |m[c]| ==> r[c][k] == zero
  {
    Matrices.Reset(m, zero)
  }

  /** `Clear`: no columns are left. */
  function Clear<T>(m: ColumnMatrix<T>): (r: ColumnMatrix<T>)
    ensures GetSize(r) == (0, 0)
  {
    Matrices.Clear(m)
  }

  /** Resizing a cleared lattice to `rows` x `cols` gives `cols` columns of
      `rows` cells, each `fill`: the shape the HMM algorithms ask for with
      `Resize(NumStates(), |observations|)`. */
  lemma ResizeEmpty<T>(rows: nat, cols: nat, fill: T)
    requires cols > 0
    ensures var r := Resize([], rows, cols, fill);
      GetSize(r) == (rows, cols) &&
      forall c, k :: 0 <= c < cols && 0 <= k < rows ==> |r[c]| == rows && r[c][k] == fill
  {
    Matrices.ResizeEmpty(cols, rows, fill);
  }

  // ---------------------------------------------------------------------
  // `Reset` and `Clear` as the source writes them: the same two slips as
  // in `Matrix`, with columns in place of rows.

  /** `Reset` as written: column c loses its first |m[c]| bytes (one per
      state), not its |m[c]| doubles. */
  function ResetAsWritten<T>(m: ColumnMatrix<T>, zero: T, part: (T, nat) -> T): (r: ColumnMatrix<T>)
    ensures GetSize(r) == GetSize(m) && |r| == |m|
    ensures forall c :: 0 <= c < |m| ==> |r[c]| == |m[c]|
  {
    Matrices.ResetAsWritten(m, zero, part)
  }

  /** A lattice column of one to eight states keeps every state but the
      first through the as-written `Reset`; the repaired `Reset` zeroes the
      whole column. */
  lemma ResetAsWrittenKeepsColumn<T>(m: ColumnMatrix<T>, zero: T, part: (T, nat) -> T, c: nat)
    requires c < |m| && 0 < |m[c]| <= 8
    ensures ResetAsWritten(m, zero, part)[c][1..] == m[c][1..]
    ensures forall k :: 0 <= k < |m[c]| ==> Reset(m, zero)[c][k] == zero
  {
    Matrices.ResetAsWrittenKeepsRow(m, zero, part, c);
  }

  /** `Clear` as written loops `i < _matrix[0].size()` over the columns, so
      it touches a column that does not exist whenever column 0 is longer
      than the number of columns (`None` stands for that access). */
  function ClearAsWritten<T>(m: ColumnMatrix<T>): (r: Option<ColumnMatrix<T>>)
    ensures r.None? <==> GetSize(m).1 < GetSize(m).0
    ensures r.Some? ==> r.value == Clear(m)
  {
    Matrices.ClearAsWritten(m)
  }

  /** A lattice sized for a sequence shorter than the number of states, as
      `Viterbi` sizes `_viterbiLattice`, makes the written `Clear` (called
      from `DiscreteHmm::Clear`) read past its columns. */
  lemma ClearAfterShortSequence<T>(states: nat, len: nat, fill: T)
    requires 0 < len < states
    ensures ClearAsWritten(Resize([], states, len, fill)) == None
    ensures Clear(Resize([], states, len, fill)) == []
  {
    ResizeEmpty(states, len, fill);
  }
}

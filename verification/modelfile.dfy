/** Reading and writing the `.hmm` model file of `DiscreteHmm`:

      X=<symbol>,<symbol>,...      emission labels
      Z=<state>,<state>,...        state labels
      A=<row>;<row>;...            the matrix stored as `_stateMatrix`
      B=<row>;<row>;...            the matrix stored as `_transitionMatrix`
      Pi=<value>,<value>,...       the initial distribution

    with `<row>` a comma-separated list of numbers.  Numbers are kept as
    the text of their tokens: the conversion to and from `double` (and to
    log space) is not part of this model. */
module ModelFile {
  import opened Options
  import opened Text
  import Matrices
  import Flyweights
  import Datasets

  /** The text of a cell that `Resize` or `Reset` zeroed. */
  const Zero: string := "0"

  /** A matrix of number tokens. */
  type Grid = Matrices.Matrix<string>

  // ---------------------------------------------------------------------
  // Matrix lines

  /** `m[i][j] = tokens[j]` for every j: the tokens overwrite the start of
      row i.  The source does not check the indices; a write outside the
      matrix is undefined behaviour and gives None here. */
  function WriteRow(m: Grid, i: nat, tokens: seq<string>): (r: Option<Grid>)
    ensures r.Some? <==> i < |m| && |tokens| <= |m[i]|
    ensures r.Some? ==> |r.value| == |m| && forall k :: 0 <= k < |m| && k != i ==> r.value[k] == m[k]
    ensures r.Some? ==> (|r.value[i]| == |m[i]| &&
      forall j :: 0 <= j < |m[i]| ==> r.value[i][j] == if j < |tokens| then tokens[j] else m[i][j])
  {
    if i < |m| && |tokens| <= |m[i]| then Some(m[i := tokens + m[i][|tokens|..]]) else None
  }

  /** The row loop of the `A=` and `B=` branches, from row `i` on, repaired.
      Each row is split on ','; the matrix is resized to (number of rows,
      tokens in this row), reset over its whole width before the first row
      only, and the row is written. */
  function ParseRows(m: Grid, rows: seq<seq<string>>, i: nat): Option<Grid>
    requires i <= |rows|
    decreases |rows| - i
  {
    if i == |rows| then Some(m)
    else
      var resized := Matrices.Resize(m, |rows|, |rows[i]|, Zero);
      var cleared := if i == 0 then Matrices.Reset(resized, Zero) else resized;
      match WriteRow(cleared, i, rows[i])
      case None => None
      case Some(written) => ParseRows(written, rows, i + 1)
  }

  /** The row loop as written: `Resize` and `Reset` run before every row,
      and `Reset` is the memset that clears as many bytes of each row as
      the row has cells (`Matrices.ResetAsWritten`).  `part(x, k)` is the
      cell `x` with its first k bytes zeroed; the byte layout of a double is
      not part of this model. */
  function ParseRowsAsWritten(m: Grid, rows: seq<seq<string>>, i: nat, part: (string, nat) -> string): Option<Grid>
    requires i <= |rows|
    decreases |rows| - i
  {
    if i == |rows| then Some(m)
    else
      var resized := Matrices.Resize(m, |rows|, |rows[i]|, Zero);
      match WriteRow(Matrices.ResetAsWritten(resized, Zero, part), i, rows[i])
      case None => None
      case Some(written) => ParseRowsAsWritten(written, rows, i + 1, part)
  }

  /** The argument of a matrix line as rows of tokens: rows separated by
      ';', cells by ','. */
  function TokenRows(arg: string): (rows: seq<seq<string>>)
    ensures |rows| == |Split(arg, ';')|
    ensures forall k :: 0 <= k < |rows| ==> rows[k] == Split(Split(arg, ';')[k], ',')
  {
    var segs := Split(arg, ';');
    seq(|segs|, k requires 0 <= k < |segs| => Split(segs[k], ','))
  }

  /** A matrix line, repaired: rows accumulate. */
  function ParseMatrix(m: Grid, arg: string): Option<Grid> {
    ParseRows(m, TokenRows(arg), 0)
  }

  /** A matrix line as written: every row clears the first bytes of every
      row, the rows already read included. */
  function ParseMatrixAsWritten(m: Grid, arg: string, part: (string, nat) -> string): Option<Grid> {
    ParseRowsAsWritten(m, TokenRows(arg), 0, part)
  }

  /** The widest of the first `n` rows. */
  function MaxWidth(rows: seq<seq<string>>, n: nat): (w: nat)
    requires n <= |rows|
    ensures forall k :: 0 <= k < n ==> |rows[k]| <= w
    ensures n > 0 ==> exists k :: 0 <= k < n && |rows[k]| == w
    ensures n == 0 ==> w == 0
  {
    if n == 0 then 0
    else
      var w := MaxWidth(rows, n - 1);
      if w < |rows[n - 1]| then |rows[n - 1]| else w
  }

  /** A |rows| x `width` grid holding row k's tokens for k < hi, padded
      with zeros, and zeros everywhere else. */
  function Filled(rows: seq<seq<string>>, hi: nat, width: nat): (g: Grid)
    ensures |g| == |rows| && forall k :: 0 <= k < |rows| ==> |g[k]| == width
  {
    seq(|rows|, k requires 0 <= k < |rows| =>
      seq(width, j requires 0 <= j < width => if k < hi && j < |rows[k]| then rows[k][j] else Zero))
  }

  lemma ResizeFilled(rows: seq<seq<string>>, i: nat)
    requires i < |rows|
    ensures Matrices.Resize(Filled(rows, i, MaxWidth(rows, i)), |rows|, |rows[i]|, Zero)
         == Filled(rows, i, MaxWidth(rows, i + 1))
  {
    var w := MaxWidth(rows, i);
    var m := Filled(rows, i, w);
    var r := Matrices.Resize(m, |rows|, |rows[i]|, Zero);
    var f := Filled(rows, i, MaxWidth(rows, i + 1));
    assert Matrices.NumCols(m) == w;
    if w < |rows[i]| {
      forall k | 0 <= k < |rows| ensures r[k] == f[k] {
        forall j | 0 <= j < |rows[i]| ensures r[k][j] == f[k][j] {
          if k < i && j < |rows[k]| {
            assert j < w;
          }
        }
      }
    }
  }

  lemma ResetFilled(rows: seq<seq<string>>, hi: nat, width: nat)
    ensures Matrices.Reset(Filled(rows, hi, width), Zero) == Filled(rows, 0, width)
  {
    var r := Matrices.Reset(Filled(rows, hi, width), Zero);
    var f := Filled(rows, 0, width);
    forall k | 0 <= k < |rows| ensures r[k] == f[k] {
    }
  }

  lemma WriteFilled(rows: seq<seq<string>>, i: nat, width: nat)
    requires i < |rows| && |rows[i]| <= width
    ensures WriteRow(Filled(rows, i, width), i, rows[i]) == Some(Filled(rows, i + 1, width))
  {
    var r := WriteRow(Filled(rows, i, width), i, rows[i]);
    var f := Filled(rows, i + 1, width);
    forall k | 0 <= k < |rows| ensures r.value[k] == f[k] {
      if k == i {
        forall j | 0 <= j < width ensures r.value[k][j] == f[k][j] {
        }
      }
    }
    assert r.value == f;
  }

  /** One row of the loop, from the second row on. */
  lemma ParseStep(rows: seq<seq<string>>, i: nat)
    requires 1 <= i < |rows|
    ensures ParseRows(Filled(rows, i, MaxWidth(rows, i)), rows, i)
         == ParseRows(Filled(rows, i + 1, MaxWidth(rows, i + 1)), rows, i + 1)
  {
    ResizeFilled(rows, i);
    WriteFilled(rows, i, MaxWidth(rows, i + 1));
  }

  /** A cleared matrix resized for the first row is the grid of zeros. */
  lemma ResizedEmptyFilled(rows: seq<seq<string>>, w: nat)
    requires |rows| > 0
    ensures Matrices.Resize([], |rows|, w, Zero) == Filled(rows, 0, w)
  {
    Matrices.ResizeEmpty(|rows|, w, Zero);
    var r := Matrices.Resize([], |rows|, w, Zero);
    forall k | 0 <= k < |rows| ensures r[k] == Filled(rows, 0, w)[k] {
    }
  }

  /** A cleared matrix resized and reset for the first row is the grid of
      zeros. */
  lemma ClearedFilled(rows: seq<seq<string>>, w: nat)
    requires |rows| > 0
    ensures Matrices.Reset(Matrices.Resize([], |rows|, w, Zero), Zero) == Filled(rows, 0, w)
  {
    ResizedEmptyFilled(rows, w);
    ResetFilled(rows, 0, w);
  }

  /** The first row of the repaired loop, given the reset grid `c`. */
  lemma ParseRowsFirst(m: Grid, rows: seq<seq<string>>, c: Grid, g: Grid)
    requires |rows| > 0
    requires c == Matrices.Reset(Matrices.Resize(m, |rows|, |rows[0]|, Zero), Zero)
    requires WriteRow(c, 0, rows[0]) == Some(g)
    ensures ParseRows(m, rows, 0) == ParseRows(g, rows, 1)
  {
  }

  /** The first row, written into a cleared matrix. */
  lemma FirstStep(rows: seq<seq<string>>)
    requires |rows| > 0
    ensures ParseRows([], rows, 0) == ParseRows(Filled(rows, 1, |rows[0]|), rows, 1)
  {
    var w := |rows[0]|;
    var c := Filled(rows, 0, w);
    var g := Filled(rows, 1, w);
    assert c == Matrices.Reset(Matrices.Resize([], |rows|, w, Zero), Zero) by {
      ClearedFilled(rows, w);
    }
    assert WriteRow(c, 0, rows[0]) == Some(g) by {
      WriteFilled(rows, 0, w);
    }
    ParseRowsFirst([], rows, c, g);
  }

  lemma {:induction false} ParseFrom(rows: seq<seq<string>>, i: nat)
    requires 1 <= i <= |rows|
    ensures ParseRows(Filled(rows, i, MaxWidth(rows, i)), rows, i)
         == Some(Filled(rows, |rows|, MaxWidth(rows, |rows|)))
    decreases |rows| - i
  {
    if i < |rows| {
      var here := Filled(rows, i, MaxWidth(rows, i));
      var next := Filled(rows, i + 1, MaxWidth(rows, i + 1));
      ParseStep(rows, i);
      assert ParseRows(here, rows, i) == ParseRows(next, rows, i + 1);
      ParseFrom(rows, i + 1);
    }
  }

  /** The repaired row loop run on a cleared matrix ends in the filled grid. */
  lemma ParseRowsFromEmpty(rows: seq<seq<string>>)
    requires |rows| > 0
    ensures ParseRows([], rows, 0) == Some(Filled(rows, |rows|, MaxWidth(rows, |rows|)))
  {
    FirstStep(rows);
    assert MaxWidth(rows, 1) == |rows[0]|;
    ParseFrom(rows, 1);
  }

  /** `g` has one row per entry of `rows`, is as wide as the widest of
      them, and holds every row's tokens padded with zeros. */
  ghost predicate Padded(g: Grid, rows: seq<seq<string>>) {
    && |g| == |rows|
    && Matrices.Rectangular(g)
    && (forall k :: 0 <= k < |rows| ==> |rows[k]| <= Matrices.NumCols(g))
    && (|rows| > 0 ==> exists k :: 0 <= k < |rows| && |rows[k]| == Matrices.NumCols(g))
    && (forall k, j :: 0 <= k < |rows| && 0 <= j < Matrices.NumCols(g) ==>
          g[k][j] == if j < |rows[k]| then rows[k][j] else Zero)
  }

  /** The filled grid is the padded one. */
  lemma FilledPadded(rows: seq<seq<string>>)
    requires |rows| > 0
    ensures Padded(Filled(rows, |rows|, MaxWidth(rows, |rows|)), rows)
  {
    var w := MaxWidth(rows, |rows|);
    var g := Filled(rows, |rows|, w);
    assert Matrices.NumCols(g) == w;
    assert Matrices.Rectangular(g);
    forall k, j | 0 <= k < |rows| && 0 <= j < w
      ensures g[k][j] == if j < |rows[k]| then rows[k][j] else Zero
    {
    }
    var k0 :| 0 <= k0 < |rows| && |rows[k0]| == w;
  }

  /** The repaired matrix line read into a cleared matrix: one row per
      ';'-separated segment, as wide as the widest row, each row holding
      its tokens followed by zeros.  Nothing falls out of range. */
  lemma ParseMatrixFromEmpty(arg: string)
    ensures ParseMatrix([], arg).Some?
    ensures Padded(ParseMatrix([], arg).value, TokenRows(arg))
  {
    var rows := TokenRows(arg);
    if |rows| > 0 {
      ParseRowsFromEmpty(rows);
      FilledPadded(rows);
    }
  }

  /** Every row holds `w` tokens, as every row the writer emits does. */
  ghost predicate Uniform(rows: seq<seq<string>>, w: nat) {
    forall k :: 0 <= k < |rows| ==> |rows[k]| == w
  }

  /** The grid after the as-written loop has read rows 0 .. i-1 of `rows`,
      each `w` tokens wide: the last row read is intact; in every other row
      the cells lying wholly inside the row's first w bytes are zero, and
      the cells lying wholly after them hold the row's token if the row was
      read and zero if not.  (The one cell the memset splits is left open.) */
  ghost predicate AsWrittenAfter(g: Grid, rows: seq<seq<string>>, i: nat, w: nat) {
    && Uniform(rows, w)
    && 1 <= i <= |rows| && |g| == |rows|
    && (forall k :: 0 <= k < |rows| ==> |g[k]| == w)
    && g[i - 1] == rows[i - 1]
    && (forall k, j :: 0 <= k < |rows| && k != i - 1 && 0 <= j < w && 8 * (j + 1) <= w ==> g[k][j] == Zero)
    && (forall k, j :: 0 <= k < |rows| && k != i - 1 && 0 <= j < w && w <= 8 * j ==>
          g[k][j] == if k < i - 1 then rows[k][j] else Zero)
  }

  /** One more row of the as-written loop keeps the description above. */
  lemma AsWrittenStep(g: Grid, rows: seq<seq<string>>, i: nat, w: nat, part: (string, nat) -> string)
    requires Uniform(rows, w) && AsWrittenAfter(g, rows, i, w) && i < |rows|
    ensures var c := Matrices.ResetAsWritten(g, Zero, part);
      && Matrices.Resize(g, |rows|, |rows[i]|, Zero) == g
      && WriteRow(c, i, rows[i]).Some?
      && AsWrittenAfter(WriteRow(c, i, rows[i]).value, rows, i + 1, w)
  {
    assert Matrices.NumCols(g) == w;
    var c := Matrices.ResetAsWritten(g, Zero, part);
    var g2 := WriteRow(c, i, rows[i]).value;
    assert g2[i] == rows[i];
    forall k, j | 0 <= k < |rows| && k != i && 0 <= j < w
      ensures 8 * (j + 1) <= w ==> g2[k][j] == Zero
      ensures w <= 8 * j ==> g2[k][j] == if k < i then rows[k][j] else Zero
    {
      assert g2[k][j] == Matrices.CellAsWritten(g[k][j], j, w, Zero, part);
    }
  }

  lemma {:induction false} AsWrittenFrom(g: Grid, rows: seq<seq<string>>, i: nat, w: nat, part: (string, nat) -> string)
    requires Uniform(rows, w) && AsWrittenAfter(g, rows, i, w)
    ensures ParseRowsAsWritten(g, rows, i, part).Some?
    ensures AsWrittenAfter(ParseRowsAsWritten(g, rows, i, part).value, rows, |rows|, w)
    decreases |rows| - i
  {
    if i < |rows| {
      AsWrittenStep(g, rows, i, w, part);
      var g2 := WriteRow(Matrices.ResetAsWritten(g, Zero, part), i, rows[i]).value;
      assert ParseRowsAsWritten(g, rows, i, part) == ParseRowsAsWritten(g2, rows, i + 1, part);
      AsWrittenFrom(g2, rows, i + 1, w, part);
    }
  }

  /** The as-written row loop run on a cleared matrix, for rows all `w`
      tokens wide: nothing falls out of range, the last row comes back
      intact, and every earlier row comes back with the cells inside its
      first w bytes zeroed and the cells after them kept.  A row of eight
      or more cells thus loses its first ⌊w/8⌋ cells. */
  lemma ParseRowsAsWrittenFromEmpty(rows: seq<seq<string>>, w: nat, part: (string, nat) -> string)
    requires |rows| > 0 && Uniform(rows, w)
    ensures ParseRowsAsWritten([], rows, 0, part).Some?
    ensures AsWrittenAfter(ParseRowsAsWritten([], rows, 0, part).value, rows, |rows|, w)
  {
    var g1 := AsWrittenFirst(rows, w, part);
    assert ParseRowsAsWritten([], rows, 0, part) == ParseRowsAsWritten(g1, rows, 1, part);
    AsWrittenFrom(g1, rows, 1, w, part);
  }

  /** The first row of the as-written loop, read into a cleared matrix. */
  lemma AsWrittenFirst(rows: seq<seq<string>>, w: nat, part: (string, nat) -> string) returns (g1: Grid)
    requires |rows| > 0 && Uniform(rows, w)
    ensures WriteRow(Matrices.ResetAsWritten(Matrices.Resize([], |rows|, w, Zero), Zero, part), 0, rows[0]) == Some(g1)
    ensures AsWrittenAfter(g1, rows, 1, w)
  {
    Matrices.ResizeEmpty(|rows|, w, Zero);
    var r := Matrices.Resize([], |rows|, w, Zero);
    var c := Matrices.ResetAsWritten(r, Zero, part);
    assert |c| == |rows| && |c[0]| == w;
    g1 := WriteRow(c, 0, rows[0]).value;
    forall k, j | 0 <= k < |rows| && k != 0 && 0 <= j < w
      ensures 8 * (j + 1) <= w ==> g1[k][j] == Zero
      ensures w <= 8 * j ==> g1[k][j] == Zero
    {
      assert g1[k][j] == Matrices.CellAsWritten(Zero, j, w, Zero, part);
    }
    assert g1[0] == rows[0];
  }

  /** Two rows of eight cells run through the as-written loop: eight
      cells are 64 bytes and the memset clears 8, so the first row loses
      exactly its first cell. */
  lemma TwoRowsAsWritten(r0: seq<string>, r1: seq<string>, part: (string, nat) -> string)
    requires |r0| == |r1| == 8
    ensures ParseRowsAsWritten([], [r0, r1], 0, part) == Some([[Zero] + r0[1..], r1])
  {
    var rows := [r0, r1];
    ParseRowsAsWrittenFromEmpty(rows, 8, part);
    var g := ParseRowsAsWritten([], rows, 0, part).value;
    assert g[1] == r1;
    assert g[0] == [Zero] + r0[1..] by {
      forall j | 0 <= j < 8 ensures g[0][j] == ([Zero] + r0[1..])[j] {
        if j > 0 {
          assert 8 <= 8 * j;
        }
      }
    }
    assert |g| == 2;
    assert g == [[Zero] + r0[1..], r1];
  }

  /** A two-row line as `MatrixText` writes it splits into its two rows. */
  lemma TwoRowsText(r0: seq<string>, r1: seq<string>)
    requires |r0| == |r1| > 0
    requires forall j :: 0 <= j < |r0| ==> NumberText(r0[j]) && NumberText(r1[j])
    ensures var arg := Join([Join(r0, ','), Join(r1, ',')], ';');
      && TokenRows(arg) == [r0, r1]
      && ParseMatrix([], arg) == Some([r0, r1])
  {
    var m: Grid := [r0, r1];
    assert WritableGrid(m);
    MatrixRoundTrip(m);
    MatrixTextRows(m);
    var arg := MatrixText(m);
    assert Matrices.NumCols(m) == |r0|;
    assert m[0][..|r0|] == r0 && m[1][..|r0|] == r1;
    var texts := seq(|m|, i requires 0 <= i < |m| => Join(m[i][..Matrices.NumCols(m)], ','));
    assert texts[0] == Join(r0, ',') && texts[1] == Join(r1, ',');
    assert texts == [Join(r0, ','), Join(r1, ',')];
    assert arg == Join(texts, ';');
  }

  /** A two-row matrix line of eight tokens a row: repaired, both rows
      come back; as written, the first token of the first row comes back
      as zero and everything else survives. */
  lemma MatrixLineTwoRows(r0: seq<string>, r1: seq<string>, part: (string, nat) -> string)
    requires |r0| == |r1| == 8
    requires forall j :: 0 <= j < 8 ==> NumberText(r0[j]) && NumberText(r1[j])
    ensures var arg := Join([Join(r0, ','), Join(r1, ',')], ';');
      && ParseMatrix([], arg) == Some([r0, r1])
      && ParseMatrixAsWritten([], arg, part) == Some([[Zero] + r0[1..], r1])
  {
    TwoRowsText(r0, r1);
    TwoRowsAsWritten(r0, r1, part);
  }

  /** Matrices never shrink, so a second matrix line with more rows than
      the first is read into a matrix whose added rows are empty: writing
      the second row falls outside it. */
  lemma MatrixLineAfterWiderLine()
    ensures ParseMatrix([["1", "2"]], "1;1") == None
  {
    SplitJoin(["1", "1"], ';');
    assert Join(["1", "1"], ';') == "1;1";
    SplitJoin(["1"], ',');
    assert TokenRows("1;1") == [["1"], ["1"]];
  }

  // ---------------------------------------------------------------------
  // The model and its file

  /** The parts of `DiscreteHmm` the model file describes: the labels (held
      by the dataset), the A and B matrices and the initial distribution.
      The A line fills `_stateMatrix` and the B line `_transitionMatrix`. */
  datatype Hmm = Hmm(dataset: Datasets.Dataset, a: Grid, b: Grid, pi: seq<string>)

  ghost predicate Valid(h: Hmm) {
    Datasets.Valid(h.dataset)
  }

  /** `Clear`: no labels, no training pairs, empty matrices and no Pi. */
  function Clear(h: Hmm): (r: Hmm)
    ensures Valid(r)
    ensures Datasets.NumInstances(r.dataset) == 0
    ensures Datasets.NumSymbols(r.dataset) == 0 && Datasets.NumStates(r.dataset) == 0
    ensures Matrices.GetSize(r.a) == (0, 0) && Matrices.GetSize(r.b) == (0, 0) && r.pi == []
  {
    Hmm(Datasets.Clear(h.dataset), Matrices.Clear(h.a), Matrices.Clear(h.b), [])
  }

  /** `size_t` arithmetic: values are taken modulo 2^64, and `npos` is the
      largest value. */
  const SizeModulus: int := 0x1_0000_0000_0000_0000
  const NPos: nat := SizeModulus - 1

  /** `line.find(c)` as a `size_t`. */
  function Find(line: string, c: char): (k: nat)
    ensures c in line ==> k == IndexOf(line, c)
    ensures c !in line ==> k == NPos
  {
    var k := IndexOf(line, c);
    if k == -1 then NPos else k
  }

  /** `s.substr(pos, count)`: at most `count` characters from `pos`. */
  function Substr(s: string, pos: nat, count: nat): (r: string)
    requires pos <= |s|
    ensures |r| <= count && pos + |r| <= |s| && r == s[pos..pos + |r|]
    ensures pos + count <= |s| ==> |r| == count
    ensures pos + count > |s| ==> r == s[pos..]
  {
    if pos + count <= |s| then s[pos..pos + count] else s[pos..]
  }

  /** The name before the first '='. */
  function Param(line: string): string {
    Substr(line, 0, Find(line, '='))
  }

  /** The text after the first '=': `substr(find + 1, length - find - 1)`
      in `size_t` arithmetic. */
  function Argument(line: string): string {
    var f := Find(line, '=');
    Substr(line, (f + 1) % SizeModulus, (|line| - f - 1) % SizeModulus)
  }

  /** How a line splits into name and argument: the name is what precedes
      the first '=' and the argument what follows it. */
  lemma LineParts(line: string)
    requires |line| < SizeModulus
    ensures '=' !in Param(line)
    ensures '=' in line ==> line == Param(line) + "=" + Argument(line)
  {
    if '=' in line {
      var k := IndexOf(line, '=');
      assert Find(line, '=') == k;
      assert Param(line) == line[..k];
      SmallMod(k + 1);
      SmallMod(|line| - k - 1);
      assert Argument(line) == line[k + 1..];
      assert line == line[..k] + "=" + line[k + 1..];
    } else {
      assert Param(line) == line;
    }
  }

  /** A value below 2^64 is its own `size_t`. */
  lemma SmallMod(x: int)
    requires 0 <= x < SizeModulus
    ensures x % SizeModulus == x
  {
  }

  /** Without an '=', `find` returns `npos`, `npos + 1` wraps round to 0,
      and both the name and the argument are the whole line. */
  lemma LineWithoutEquals(line: string)
    requires '=' !in line && |line| < SizeModulus
    ensures Param(line) == line && Argument(line) == line
  {
    var f := Find(line, '=');
    assert (f + 1) % SizeModulus == 0;
    assert (|line| - f - 1) % SizeModulus == |line|;
  }

  /** The `X=` loop: each label is added to the symbol table in turn. */
  function AddSymbols(ds: Datasets.Dataset, labels: seq<string>): (r: Datasets.Dataset)
    requires Datasets.Valid(ds)
    ensures Datasets.Valid(r)
    ensures r.symbols == Flyweights.AddAll(ds.symbols, labels)
    ensures r.states == ds.states && r.trainingSequence == ds.trainingSequence
    decreases |labels|
  {
    if |labels| == 0 then ds else AddSymbols(Datasets.AddSymbol(ds, labels[0]).0, labels[1..])
  }

  /** The `Z=` loop: each label is added to the state table in turn. */
  function AddStates(ds: Datasets.Dataset, labels: seq<string>): (r: Datasets.Dataset)
    requires Datasets.Valid(ds)
    ensures Datasets.Valid(r)
    ensures r.states == Flyweights.AddAll(ds.states, labels)
    ensures r.symbols == ds.symbols && r.trainingSequence == ds.trainingSequence
    decreases |labels|
  {
    if |labels| == 0 then ds else AddStates(Datasets.AddState(ds, labels[0]).0, labels[1..])
  }

  /** One line of the file.  Empty lines and lines starting with '#' are
      skipped, as is a line with any other name.  `X` and `Z` add labels,
      `A` and `B` read a matrix (None if a write falls out of range), `Pi`
      appends values. */
  function ApplyLine(h: Hmm, line: string): (r: Option<Hmm>)
    requires Valid(h)
    ensures r.Some? ==> Valid(r.value) && r.value.dataset.trainingSequence == h.dataset.trainingSequence
    ensures r.None? ==> Param(line) in {"A", "B"}
    ensures |line| == 0 || line[0] == '#' || Param(line) !in {"X", "Z", "A", "B", "Pi"} ==> r == Some(h)
    ensures |line| > 0 && line[0] != '#' && Param(line) == "Pi" ==> r == Some(h.(pi := h.pi + Split(Argument(line), ',')))
  {
    if |line| == 0 || line[0] == '#' then Some(h)
    else
      var param, arg := Param(line), Argument(line);
      if param == "X" then Some(h.(dataset := AddSymbols(h.dataset, Split(arg, ','))))
      else if param == "Z" then Some(h.(dataset := AddStates(h.dataset, Split(arg, ','))))
      else if param == "A" then
        match ParseMatrix(h.a, arg)
        case None => None
        case Some(a) => Some(h.(a := a))
      else if param == "B" then
        match ParseMatrix(h.b, arg)
        case None => None
        case Some(b) => Some(h.(b := b))
      else if param == "Pi" then Some(h.(pi := h.pi + Split(arg, ',')))
      else Some(h)
  }

  /** The lines of the file, in order. */
  function ApplyLines(h: Hmm, lines: seq<string>): (r: Option<Hmm>)
    requires Valid(h)
    ensures r.Some? ==> Valid(r.value) && r.value.dataset.trainingSequence == h.dataset.trainingSequence
    decreases |lines|
  {
    if |lines| == 0 then Some(h)
    else
      match ApplyLine(h, lines[0])
      case None => None
      case Some(h') => ApplyLines(h', lines[1..])
  }

  /** `_validate`: Pi, the rows and columns of A and the rows of B must
      all have the same non-zero size. */
  function Validate(h: Hmm): (ok: bool)
    ensures ok <==>
      && |h.pi| > 0
      && |h.pi| == Matrices.NumRows(h.a) == Matrices.NumCols(h.a) == Matrices.NumRows(h.b)
  {
    var result := true;
    var result := if |h.pi| != Matrices.NumRows(h.a) || |h.pi| != Matrices.NumCols(h.a) then false else result;
    var result := if |h.pi| != Matrices.NumRows(h.b) then false else result;
    var result := if Matrices.NumCols(h.a) != Matrices.NumRows(h.a) then false else result;
    var result := if |h.pi| == 0 || Matrices.NumRows(h.a) == 0 || Matrices.NumRows(h.b) == 0 then false else result;
    result
  }

  /** `ParseModelFile`: clear the model, apply every line of the text (as
      `getline` delivers them) and validate.  None when a matrix write falls
      out of range; otherwise the model and the result of `_validate`. */
  function ParseModelFile(h: Hmm, text: string): (r: Option<(Hmm, bool)>)
    ensures r.Some? ==> Valid(r.value.0) && Datasets.NumInstances(r.value.0.dataset) == 0
    ensures r.Some? ==> (r.value.1 <==> (|r.value.0.pi| > 0 &&
      |r.value.0.pi| == Matrices.NumRows(r.value.0.a) == Matrices.NumCols(r.value.0.a) == Matrices.NumRows(r.value.0.b)))
  {
    match ApplyLines(Clear(h), Split(text, '\n'))
    case None => None
    case Some(m) => Some((m, Validate(m)))
  }

  // ---------------------------------------------------------------------
  // Writing

  /** The labels in key order, as the writer loops over them. */
  function SymbolList(ds: Datasets.Dataset): (labels: seq<string>)
    requires Datasets.Valid(ds)
    ensures labels == ds.symbols.reverse
  {
    seq(Datasets.NumSymbols(ds), i requires 0 <= i < Datasets.NumSymbols(ds) => Datasets.GetSymbol(ds, i))
  }

  function StateList(ds: Datasets.Dataset): (labels: seq<string>)
    requires Datasets.Valid(ds)
    ensures labels == ds.states.reverse
  {
    seq(Datasets.NumStates(ds), i requires 0 <= i < Datasets.NumStates(ds) => Datasets.GetState(ds, i))
  }

  /** Every row is at least as wide as row 0, so the writer, which reads
      `NumCols()` cells of every row, stays inside the matrix. */
  ghost predicate Readable(m: Grid) {
    forall i :: 0 <= i < |m| ==> Matrices.NumCols(m) <= |m[i]|
  }

  /** One matrix line: each row's first `NumCols()` cells joined by ',',
      the rows joined by ';'. */
  function MatrixText(m: Grid): string
    requires Readable(m)
  {
    Join(seq(|m|, i requires 0 <= i < |m| => Join(m[i][..Matrices.NumCols(m)], ',')), ';')
  }

  /** The five lines `WriteModel` writes. */
  function WriteLines(h: Hmm): seq<string>
    requires Valid(h) && Readable(h.a) && Readable(h.b)
  {
    [ "X=" + Join(SymbolList(h.dataset), ','),
      "Z=" + Join(StateList(h.dataset), ','),
      "A=" + MatrixText(h.a),
      "B=" + MatrixText(h.b),
      "Pi=" + Join(h.pi, ',') ]
  }

  /** `WriteModel`: the five lines, each ended by a newline. */
  function WriteModel(h: Hmm): string
    requires Valid(h) && Readable(h.a) && Readable(h.b)
  {
    Join(WriteLines(h), '\n') + "\n"
  }

  // ---------------------------------------------------------------------
  // Round trip

  /** A label the writer can emit and the reader gets back unchanged. */
  ghost predicate LabelText(s: string) {
    s != "" && ',' !in s && '\n' !in s
  }

  /** A number token the writer can emit and the reader gets back. */
  ghost predicate NumberText(s: string) {
    LabelText(s) && ';' !in s
  }

  /** A matrix the writer reproduces exactly: rectangular, not zero columns
      wide unless it has no rows, with readable tokens. */
  ghost predicate WritableGrid(m: Grid) {
    && Matrices.Rectangular(m)
    && (|m| > 0 ==> Matrices.NumCols(m) > 0)
    && forall i, j :: 0 <= i < |m| && 0 <= j < |m[i]| ==> NumberText(m[i][j])
  }

  ghost predicate Writable(h: Hmm) {
    && Valid(h)
    && (forall i :: 0 <= i < |h.dataset.symbols.reverse| ==> LabelText(h.dataset.symbols.reverse[i]))
    && (forall i :: 0 <= i < |h.dataset.states.reverse| ==> LabelText(h.dataset.states.reverse[i]))
    && WritableGrid(h.a)
    && WritableGrid(h.b)
    && (forall i :: 0 <= i < |h.pi| ==> NumberText(h.pi[i]))
  }

  /** A list of labels survives joining with ',' and splitting again. */
  lemma ListRoundTrip(labels: seq<string>)
    requires forall i :: 0 <= i < |labels| ==> LabelText(labels[i])
    ensures Split(Join(labels, ','), ',') == labels
    ensures '\n' !in Join(labels, ',')
  {
    SplitJoin(labels, ',');
    JoinAvoids(labels, ',', '\n');
  }

  /** The row texts of a writable matrix: each splits back into its row,
      holds no ';' or newline, and is not empty. */
  lemma RowTexts(m: Grid, texts: seq<string>)
    requires WritableGrid(m)
    requires |texts| == |m|
    requires forall i :: 0 <= i < |m| ==> texts[i] == Join(m[i][..Matrices.NumCols(m)], ',')
    ensures forall i :: 0 <= i < |m| ==>
      Split(texts[i], ',') == m[i] && ';' !in texts[i] && '\n' !in texts[i] && texts[i] != ""
  {
    forall i | 0 <= i < |m|
      ensures Split(texts[i], ',') == m[i]
      ensures ';' !in texts[i] && '\n' !in texts[i] && texts[i] != ""
    {
      assert m[i][..Matrices.NumCols(m)] == m[i];
      ListRoundTrip(m[i]);
      JoinAvoids(m[i], ',', ';');
      JoinStarts(m[i], ',');
    }
  }

  /** The rows `MatrixText` writes split back into the matrix. */
  lemma MatrixTextRows(m: Grid)
    requires WritableGrid(m)
    ensures Readable(m)
    ensures TokenRows(MatrixText(m)) == m
    ensures '\n' !in MatrixText(m)
  {
    var c := Matrices.NumCols(m);
    var texts := seq(|m|, i requires 0 <= i < |m| => Join(m[i][..c], ','));
    RowTexts(m, texts);
    SplitJoin(texts, ';');
    JoinAvoids(texts, ';', '\n');
  }

  /** A rectangular grid whose cells agree with the rows of `m` up to the
      width of `m` is `m`. */
  lemma SameGrid(r: Grid, m: Grid)
    requires Matrices.Rectangular(m) && Matrices.Rectangular(r) && |r| == |m|
    requires |m| > 0 ==> Matrices.NumCols(r) == Matrices.NumCols(m)
    requires forall k, j :: 0 <= k < |m| && 0 <= j < Matrices.NumCols(r) ==> r[k][j] == m[k][j]
    ensures r == m
  {
    forall i | 0 <= i < |m| ensures r[i] == m[i] {
    }
  }

  /** A writable matrix survives `MatrixText` and the repaired reader. */
  lemma MatrixRoundTrip(m: Grid)
    requires WritableGrid(m)
    ensures Readable(m)
    ensures ParseMatrix([], MatrixText(m)) == Some(m)
    ensures '\n' !in MatrixText(m)
  {
    MatrixTextRows(m);
    ParseMatrixFromEmpty(MatrixText(m));
    var r := ParseMatrix([], MatrixText(m)).value;
    assert Padded(r, m);
    if |m| > 0 {
      var k :| 0 <= k < |m| && |m[k]| == Matrices.NumCols(r);
    }
    SameGrid(r, m);
  }

  /** A line `<name>=<argument>` with '=' not in the name is read back as
      that name and that argument. */
  lemma ExactParam(name: string, arg: string, line: string)
    requires '=' !in name && line == name + "=" + arg
    requires |line| < SizeModulus
    ensures Param(line) == name && Argument(line) == arg
  {
    assert line == name + ['='] + arg;
    IndexOfAfterPrefix(name, '=', arg);
    assert '=' in line by {
      assert line[|name|] == '=';
    }
    LineParts(line);
    assert line[..|name|] == name;
    assert Param(line) == name;
    assert line[|name| + 1..] == arg;
  }

  /** Reading back the `X=` line into a model with no symbols. */
  lemma ReadSymbols(h: Hmm, labels: seq<string>)
    requires Valid(h)
    requires forall i :: 0 <= i < |labels| ==> LabelText(labels[i])
    requires 2 + |Join(labels, ',')| < SizeModulus
    ensures ApplyLine(h, "X=" + Join(labels, ',')) == Some(h.(dataset := AddSymbols(h.dataset, labels)))
  {
    ListRoundTrip(labels);
    ExactParam("X", Join(labels, ','), "X=" + Join(labels, ','));
  }

  /** Reading back the `Z=` line. */
  lemma ReadStates(h: Hmm, labels: seq<string>)
    requires Valid(h)
    requires forall i :: 0 <= i < |labels| ==> LabelText(labels[i])
    requires 2 + |Join(labels, ',')| < SizeModulus
    ensures ApplyLine(h, "Z=" + Join(labels, ',')) == Some(h.(dataset := AddStates(h.dataset, labels)))
  {
    ListRoundTrip(labels);
    ExactParam("Z", Join(labels, ','), "Z=" + Join(labels, ','));
  }

  /** An `A=` or `B=` line reads its argument into that matrix. */
  lemma MatrixLine(h: Hmm, line: string)
    requires Valid(h) && |line| > 0 && line[0] != '#' && Param(line) in {"A", "B"}
    ensures Param(line) == "A" ==>
      ApplyLine(h, line) == match ParseMatrix(h.a, Argument(line)) case None => None case Some(a) => Some(h.(a := a))
    ensures Param(line) == "B" ==>
      ApplyLine(h, line) == match ParseMatrix(h.b, Argument(line)) case None => None case Some(b) => Some(h.(b := b))
  {
    var param := Param(line);
    assert param != "X" && param != "Z";
    assert param == "B" ==> param != "A";
  }

  /** Reading back the `A=` line into a cleared A. */
  lemma ReadA(h: Hmm, m: Grid)
    requires Valid(h) && h.a == [] && WritableGrid(m)
    requires 2 + |MatrixText(m)| < SizeModulus
    ensures ApplyLine(h, "A=" + MatrixText(m)) == Some(h.(a := m))
  {
    var arg := MatrixText(m);
    var line := "A=" + arg;
    assert Param(line) == "A" && Argument(line) == arg by {
      ExactParam("A", arg, line);
    }
    assert ParseMatrix(h.a, arg) == Some(m) by {
      MatrixRoundTrip(m);
    }
    assert line[0] != '#';
    MatrixLine(h, line);
  }

  /** Reading back the `B=` line into a cleared B. */
  lemma ReadB(h: Hmm, m: Grid)
    requires Valid(h) && h.b == [] && WritableGrid(m)
    requires 2 + |MatrixText(m)| < SizeModulus
    ensures ApplyLine(h, "B=" + MatrixText(m)) == Some(h.(b := m))
  {
    var arg := MatrixText(m);
    var line := "B=" + arg;
    assert Param(line) == "B" && Argument(line) == arg by {
      ExactParam("B", arg, line);
    }
    assert ParseMatrix(h.b, arg) == Some(m) by {
      MatrixRoundTrip(m);
    }
    assert line[0] != '#';
    MatrixLine(h, line);
  }

  /** Reading back the `Pi=` line into an empty Pi. */
  lemma ReadPi(h: Hmm, pi: seq<string>)
    requires Valid(h) && h.pi == []
    requires forall i :: 0 <= i < |pi| ==> NumberText(pi[i])
    requires 3 + |Join(pi, ',')| < SizeModulus
    ensures ApplyLine(h, "Pi=" + Join(pi, ',')) == Some(h.(pi := pi))
  {
    ListRoundTrip(pi);
    ExactParam("Pi", Join(pi, ','), "Pi=" + Join(pi, ','));
    assert [] + pi == pi;
  }

  /** Writing a model and reading the file back yields the same labels
      with the same keys, the same matrices and the same Pi, and the same
      verdict from `_validate`; the training pairs are not part of the
      file, so they come back empty.  Whatever model was in memory before
      the read is discarded.  (A `std::string` holds fewer than 2^64
      characters.) */
  lemma WriteThenParse(h0: Hmm, h: Hmm)
    requires Writable(h)
    requires |WriteModel(h)| < SizeModulus
    ensures ParseModelFile(h0, WriteModel(h)) == Some((h.(dataset := h.dataset.(trainingSequence := [])), Validate(h)))
  {
    LinesOfText(h);
    ReadLines(Clear(h0), h);
  }

  /** The five lines, applied in order to a cleared model, rebuild `h`
      without its training pairs. */
  lemma ReadLines(c: Hmm, h: Hmm)
    requires Writable(h)
    requires c == Clear(c)
    requires forall i :: 0 <= i < 5 ==> |WriteLines(h)[i]| < SizeModulus
    ensures ApplyLines(c, WriteLines(h)) == Some(h.(dataset := h.dataset.(trainingSequence := [])))
  {
    var ds := h.dataset;
    var lines := WriteLines(h);
    Flyweights.RebuildFromItems(ds.symbols);
    Flyweights.RebuildFromItems(ds.states);
    var c1 := c.(dataset := AddSymbols(c.dataset, ds.symbols.reverse));
    var c2 := c1.(dataset := AddStates(c1.dataset, ds.states.reverse));
    var c3 := c2.(a := h.a);
    var c4 := c3.(b := h.b);
    var c5 := c4.(pi := h.pi);
    assert c5 == h.(dataset := ds.(trainingSequence := []));
    assert lines[0] == "X=" + Join(ds.symbols.reverse, ',');
    assert lines[1] == "Z=" + Join(ds.states.reverse, ',');
    assert lines[2] == "A=" + MatrixText(h.a);
    assert lines[3] == "B=" + MatrixText(h.b);
    assert lines[4] == "Pi=" + Join(h.pi, ',');
    assert c.a == [] && c.b == [] && c.pi == [];
    assert Valid(c1) && Valid(c2) && Valid(c3) && Valid(c4);
    ReadSymbols(c, ds.symbols.reverse);
    ReadStates(c1, ds.states.reverse);
    ReadA(c2, h.a);
    ReadB(c3, h.b);
    ReadPi(c4, h.pi);
    ApplyFive(c, lines, c1, c2, c3, c4, c5);
  }

  /** Five lines that take the model from `c` through `c1`, ..., `c4` to
      `c5` one at a time take it from `c` to `c5` together. */
  lemma ApplyFive(c: Hmm, lines: seq<string>, c1: Hmm, c2: Hmm, c3: Hmm, c4: Hmm, c5: Hmm)
    requires |lines| == 5 && Valid(c) && Valid(c1) && Valid(c2) && Valid(c3) && Valid(c4)
    requires ApplyLine(c, lines[0]) == Some(c1) && ApplyLine(c1, lines[1]) == Some(c2)
    requires ApplyLine(c2, lines[2]) == Some(c3) && ApplyLine(c3, lines[3]) == Some(c4)
    requires ApplyLine(c4, lines[4]) == Some(c5)
    ensures ApplyLines(c, lines) == Some(c5)
  {
    assert ApplyLines(c5, lines[5..]) == Some(c5);
    assert ApplyLines(c4, lines[4..]) == Some(c5);
    assert ApplyLines(c3, lines[3..]) == Some(c5);
    assert ApplyLines(c2, lines[2..]) == Some(c5);
    assert ApplyLines(c1, lines[1..]) == Some(c5);
  }

  /** `getline` recovers the five written lines, and each is shorter than
      the text. */
  lemma LinesOfText(h: Hmm)
    requires Writable(h)
    ensures Readable(h.a) && Readable(h.b)
    ensures Split(WriteModel(h), '\n') == WriteLines(h)
    ensures forall i :: 0 <= i < 5 ==> |WriteLines(h)[i]| < |WriteModel(h)|
  {
    NoNewlines(h);
    var lines := WriteLines(h);
    SplitJoinTerminated(lines, '\n');
    var joined := Join(lines, '\n');
    assert |WriteModel(h)| == |joined| + 1;
    forall i | 0 <= i < 5 ensures |lines[i]| < |WriteModel(h)| {
      JoinLonger(lines, '\n', i);
    }
  }

  /** No written line contains a newline. */
  lemma NoNewlines(h: Hmm)
    requires Writable(h)
    ensures Readable(h.a) && Readable(h.b)
    ensures forall i :: 0 <= i < |WriteLines(h)| ==> '\n' !in WriteLines(h)[i]
  {
    ArgumentsOneLine(h);
    var ds := h.dataset;
    var lines := WriteLines(h);
    NoNewline("X=", Join(SymbolList(ds), ','), lines[0]);
    NoNewline("Z=", Join(StateList(ds), ','), lines[1]);
    NoNewline("A=", MatrixText(h.a), lines[2]);
    NoNewline("B=", MatrixText(h.b), lines[3]);
    NoNewline("Pi=", Join(h.pi, ','), lines[4]);
  }

  /** The written arguments hold no newline. */
  lemma ArgumentsOneLine(h: Hmm)
    requires Writable(h)
    ensures Readable(h.a) && Readable(h.b)
    ensures '\n' !in Join(SymbolList(h.dataset), ',') && '\n' !in Join(StateList(h.dataset), ',')
    ensures '\n' !in MatrixText(h.a) && '\n' !in MatrixText(h.b) && '\n' !in Join(h.pi, ',')
  {
    MatrixTextRows(h.a);
    MatrixTextRows(h.b);
    ListRoundTrip(SymbolList(h.dataset));
    ListRoundTrip(StateList(h.dataset));
    ListRoundTrip(h.pi);
  }

  lemma NoNewline(name: string, arg: string, line: string)
    requires line == name + arg && '\n' !in name && '\n' !in arg
    ensures '\n' !in line
  {
    assert forall i :: 0 <= i < |line| ==> line[i] == if i < |name| then name[i] else arg[i - |name|];
  }
}

/** Supervised training (`DiscreteHmm::Train`): counting state
    transitions and emissions over a labelled training sequence.

    A is resized to NumStates x NumStates and zeroed, B to NumStates x
    NumSymbols and zeroed; then for every adjacent pair of records
    (i-1, i), i >= 1, the transition A[state(i-1)][state(i)] and the
    emission B[state(i)][symbol(i)] are each counted once.  The emission
    of record 0 is never counted.  The row normalisation into log
    probabilities that follows is not part of this model, so the
    matrices here hold the integer counts it starts from. */
module Training {
  import opened Options
  import Matrices
  import Datasets

  /** A count matrix. */
  type Counts = Matrices.Matrix<int>

  /** The number of i in [1, |ts|) with state(i-1) == p and state(i) == q. */
  function TransitionCount(ts: seq<(int, int)>, p: int, q: int): nat
    decreases |ts|
  {
    if |ts| < 2 then 0
    else TransitionCount(ts[..|ts| - 1], p, q) + if Step(ts, |ts| - 1) == (p, q) then 1 else 0
  }

  /** The number of i in [1, |ts|) with state(i) == s and symbol(i) == o. */
  function EmissionCount(ts: seq<(int, int)>, s: int, o: int): nat
    decreases |ts|
  {
    if |ts| < 2 then 0
    else EmissionCount(ts[..|ts| - 1], s, o) + if ts[|ts| - 1] == (s, o) then 1 else 0
  }

  /** The transition (state(i-1), state(i)) taken at position i >= 1. */
  function Step(ts: seq<(int, int)>, i: int): (int, int)
    requires 1 <= i < |ts|
  {
    (ts[i - 1].0, ts[i].0)
  }

  /** The positions counted for transition (p, q). */
  ghost function Transitions(ts: seq<(int, int)>, p: int, q: int): set<int> {
    set i | 1 <= i < |ts| && Step(ts, i) == (p, q)
  }

  /** The positions counted for emission (s, o). */
  ghost function Emissions(ts: seq<(int, int)>, s: int, o: int): set<int> {
    set i | 1 <= i < |ts| && ts[i] == (s, o)
  }

  /** The recursive counts are the sizes of those position sets. */
  lemma {:induction false} TransitionCountIsSize(ts: seq<(int, int)>, p: int, q: int)
    ensures TransitionCount(ts, p, q) == |Transitions(ts, p, q)|
    decreases |ts|
  {
    if |ts| < 2 {
      assert Transitions(ts, p, q) == {};
    } else {
      var n := |ts| - 1;
      var pre := ts[..n];
      TransitionCountIsSize(pre, p, q);
      assert forall i :: 1 <= i < n ==> Step(ts, i) == Step(pre, i);
      var extra := if Step(ts, n) == (p, q) then {n} else {};
      assert Transitions(ts, p, q) == Transitions(pre, p, q) + extra;
    }
  }

  lemma {:induction false} EmissionCountIsSize(ts: seq<(int, int)>, s: int, o: int)
    ensures EmissionCount(ts, s, o) == |Emissions(ts, s, o)|
    decreases |ts|
  {
    if |ts| < 2 {
      assert Emissions(ts, s, o) == {};
    } else {
      var n := |ts| - 1;
      var pre := ts[..n];
      EmissionCountIsSize(pre, s, o);
      assert forall i :: 1 <= i < n ==> ts[i] == pre[i];
      var extra := if ts[n] == (s, o) then {n} else {};
      assert Emissions(ts, s, o) == Emissions(pre, s, o) + extra;
    }
  }

  /** Cell (i, j) exists. */
  predicate InRange(m: Counts, i: int, j: int) {
    0 <= i < |m| && 0 <= j < |m[i]|
  }

  /** Every cell the counting loop increments exists. */
  ghost predicate Fits(a: Counts, b: Counts, ts: seq<(int, int)>) {
    forall i :: 1 <= i < |ts| ==> InRange(a, ts[i - 1].0, ts[i].0) && InRange(b, ts[i].0, ts[i].1)
  }

  /** Two matrices with the same row lengths. */
  ghost predicate SameShape(m: Counts, n: Counts) {
    |m| == |n| && forall i :: 0 <= i < |m| ==> |m[i]| == |n[i]|
  }

  function RowSum(r: seq<int>): int
    decreases |r|
  {
    if |r| == 0 then 0 else RowSum(r[..|r| - 1]) + r[|r| - 1]
  }

  /** The sum of every cell. */
  function Total(m: Counts): int
    decreases |m|
  {
    if |m| == 0 then 0 else Total(m[..|m| - 1]) + RowSum(m[|m| - 1])
  }

  /** Incrementing one entry adds one to the row sum. */
  lemma {:induction false} RowSumBump(r: seq<int>, j: nat)
    requires j < |r|
    ensures RowSum(r[j := r[j] + 1]) == RowSum(r) + 1
    decreases |r|
  {
    var n := |r| - 1;
    var s := r[j := r[j] + 1];
    if j < n {
      RowSumBump(r[..n], j);
      assert s[..n] == r[..n][j := r[j] + 1];
    } else {
      assert s[..n] == r[..n];
    }
  }

  /** Replacing one row changes the total by the change of its sum. */
  lemma {:induction false} TotalRow(m: Counts, i: nat, row: seq<int>)
    requires i < |m|
    ensures Total(m[i := row]) == Total(m) - RowSum(m[i]) + RowSum(row)
    decreases |m|
  {
    var n := |m| - 1;
    var u := m[i := row];
    if i < n {
      TotalRow(m[..n], i, row);
      assert u[..n] == m[..n][i := row];
    } else {
      assert u[..n] == m[..n];
    }
  }

  lemma {:induction false} RowSumZero(r: seq<int>)
    requires forall j :: 0 <= j < |r| ==> r[j] == 0
    ensures RowSum(r) == 0
    decreases |r|
  {
    if |r| > 0 {
      RowSumZero(r[..|r| - 1]);
    }
  }

  lemma {:induction false} TotalZero(m: Counts)
    requires forall i, j :: 0 <= i < |m| && 0 <= j < |m[i]| ==> m[i][j] == 0
    ensures Total(m) == 0
    decreases |m|
  {
    if |m| > 0 {
      var n := |m| - 1;
      assert forall i, j :: 0 <= i < n && 0 <= j < |m[..n][i]| ==> m[..n][i][j] == m[i][j];
      TotalZero(m[..n]);
      RowSumZero(m[n]);
    }
  }

  /** Counting one more cell: the cell goes up by one, the total too. */
  function Bump(m: Counts, i: int, j: int): (r: Counts)
    requires InRange(m, i, j)
    ensures SameShape(r, m) && Total(r) == Total(m) + 1
    ensures forall k, l :: InRange(m, k, l) ==> r[k][l] == m[k][l] + if (k, l) == (i, j) then 1 else 0
  {
    RowSumBump(m[i], j);
    TotalRow(m, i, m[i][j := m[i][j] + 1]);
    Matrices.Set(m, i, j, m[i][j] + 1)
  }

  /** Every cell of `a` holds its transition count over `ts`. */
  ghost predicate TransitionsCounted(a: Counts, ts: seq<(int, int)>) {
    forall p, q :: InRange(a, p, q) ==> a[p][q] == TransitionCount(ts, p, q)
  }

  /** Every cell of `b` holds its emission count over `ts`. */
  ghost predicate EmissionsCounted(b: Counts, ts: seq<(int, int)>) {
    forall s, o :: InRange(b, s, o) ==> b[s][o] == EmissionCount(ts, s, o)
  }

  /** One more position counted in the transition matrix. */
  lemma BumpTransitions(a: Counts, ts: seq<(int, int)>, i: nat)
    requires 1 <= i < |ts| && InRange(a, ts[i - 1].0, ts[i].0)
    requires TransitionsCounted(a, ts[..i])
    ensures TransitionsCounted(Bump(a, ts[i - 1].0, ts[i].0), ts[..i + 1])
  {
    assert ts[..i + 1][..i] == ts[..i];
    assert Step(ts[..i + 1], i) == Step(ts, i);
  }

  /** One more position counted in the emission matrix. */
  lemma BumpEmissions(b: Counts, ts: seq<(int, int)>, i: nat)
    requires 1 <= i < |ts| && InRange(b, ts[i].0, ts[i].1)
    requires EmissionsCounted(b, ts[..i])
    ensures EmissionsCounted(Bump(b, ts[i].0, ts[i].1), ts[..i + 1])
  {
    assert ts[..i + 1][..i] == ts[..i];
    assert ts[..i + 1][i] == ts[i];
  }

  /** Zeroed matrices count the pairs of a one-record prefix. */
  lemma ZeroCounted(a: Counts, b: Counts, ts: seq<(int, int)>)
    requires |ts| > 0
    requires forall p, q :: InRange(a, p, q) ==> a[p][q] == 0
    requires forall s, o :: InRange(b, s, o) ==> b[s][o] == 0
    ensures TransitionsCounted(a, ts[..1]) && EmissionsCounted(b, ts[..1])
  {
  }

  /** The prefix `ts[..i + 1]` fits when `ts[..i]` does and position i does. */
  lemma FitsExtend(a: Counts, b: Counts, ts: seq<(int, int)>, i: nat)
    requires 1 <= i < |ts| && Fits(a, b, ts[..i])
    requires InRange(a, ts[i - 1].0, ts[i].0) && InRange(b, ts[i].0, ts[i].1)
    ensures Fits(a, b, ts[..i + 1])
  {
    var pre := ts[..i];
    assert forall k :: 0 <= k < i ==> pre[k] == ts[k];
  }

  /** A position out of range in a matrix of the same shape breaks `Fits`. */
  lemma MissFits(a: Counts, b: Counts, a0: Counts, b0: Counts, ts: seq<(int, int)>, i: nat)
    requires 1 <= i < |ts| && SameShape(a, a0) && SameShape(b, b0)
    requires !InRange(a, ts[i - 1].0, ts[i].0) || !InRange(b, ts[i].0, ts[i].1)
    ensures !Fits(a0, b0, ts)
  {
  }

  /** The counting loop over zeroed matrices: it succeeds exactly when
      every counted cell exists, and then each cell holds its count. */
  method CountPairs(a0: Counts, b0: Counts, ts: seq<(int, int)>) returns (r: Option<(Counts, Counts)>)
    requires forall p, q :: InRange(a0, p, q) ==> a0[p][q] == 0
    requires forall s, o :: InRange(b0, s, o) ==> b0[s][o] == 0
    requires Total(a0) == 0 && Total(b0) == 0
    ensures r.Some? <==> Fits(a0, b0, ts)
    ensures r.Some? ==> SameShape(r.value.0, a0) && SameShape(r.value.1, b0)
    ensures r.Some? ==> TransitionsCounted(r.value.0, ts) && EmissionsCounted(r.value.1, ts)
    ensures r.Some? ==> Total(r.value.0) == Total(r.value.1) == if |ts| == 0 then 0 else |ts| - 1
  {
    if |ts| == 0 {
      return Some((a0, b0));
    }
    ZeroCounted(a0, b0, ts);
    var a, b := a0, b0;
    var i := 1;
    while i < |ts|
      invariant 1 <= i <= |ts|
      invariant SameShape(a, a0) && SameShape(b, b0)
      invariant Fits(a0, b0, ts[..i])
      invariant TransitionsCounted(a, ts[..i]) && EmissionsCounted(b, ts[..i])
      invariant Total(a) == Total(b) == i - 1
    {
      var p, q, o := ts[i - 1].0, ts[i].0, ts[i].1;
      if !InRange(a, p, q) || !InRange(b, q, o) {
        MissFits(a, b, a0, b0, ts, i);
        return None;
      }
      FitsExtend(a0, b0, ts, i);
      BumpTransitions(a, ts, i);
      BumpEmissions(b, ts, i);
      a := Bump(a, p, q);
      b := Bump(b, q, o);
      i := i + 1;
    }
    assert ts[..i] == ts;
    r := Some((a, b));
  }

  /** `Train(dataset)` on the previous matrices `a0` and `b0`.  The result
      is `None` exactly when the loop would increment a cell the resized
      matrices do not have (possible only when an earlier, wider matrix
      kept its width and so gave its new rows no cells).  Otherwise the
      matrices have the resized shapes, every cell holds its transition or
      emission count, and each matrix counts |ts| - 1 pairs in all. */
  method Train(a0: Counts, b0: Counts, ds: Datasets.Dataset) returns (r: Option<(Counts, Counts)>)
    requires Datasets.Valid(ds)
    requires |a0| > 0 || Datasets.NumStates(ds) > 0
    requires |b0| > 0 || Datasets.NumStates(ds) > 0
    ensures var a1 := Matrices.Resize(a0, Datasets.NumStates(ds), Datasets.NumStates(ds), 0);
      var b1 := Matrices.Resize(b0, Datasets.NumStates(ds), Datasets.NumSymbols(ds), 0);
      && (r.Some? <==> Fits(a1, b1, ds.trainingSequence))
      && (r.Some? ==> SameShape(r.value.0, a1) && SameShape(r.value.1, b1))
    ensures r.Some? ==> TransitionsCounted(r.value.0, ds.trainingSequence)
    ensures r.Some? ==> EmissionsCounted(r.value.1, ds.trainingSequence)
    ensures r.Some? ==> Total(r.value.0) == Total(r.value.1) == if |ds.trainingSequence| == 0 then 0 else |ds.trainingSequence| - 1
  {
    var n := Datasets.NumStates(ds);
    var a1 := Matrices.Resize(a0, n, n, 0);
    var b1 := Matrices.Resize(b0, n, Datasets.NumSymbols(ds), 0);
    var a := Matrices.Reset(a1, 0);
    var b := Matrices.Reset(b1, 0);
    TotalZero(a);
    TotalZero(b);
    assert Fits(a, b, ds.trainingSequence) <==> Fits(a1, b1, ds.trainingSequence);
    r := CountPairs(a, b, ds.trainingSequence);
  }

  /** Training a cleared model (empty matrices) on a valid dataset with at
      least one state never meets a missing cell. */
  lemma ClearedFits(ds: Datasets.Dataset)
    requires Datasets.Valid(ds) && Datasets.NumStates(ds) > 0
    ensures Fits(Matrices.Resize([], Datasets.NumStates(ds), Datasets.NumStates(ds), 0),
                 Matrices.Resize([], Datasets.NumStates(ds), Datasets.NumSymbols(ds), 0),
                 ds.trainingSequence)
  {
    Matrices.ResizeEmpty(Datasets.NumStates(ds), Datasets.NumStates(ds), 0);
    Matrices.ResizeEmpty(Datasets.NumStates(ds), Datasets.NumSymbols(ds), 0);
  }
}

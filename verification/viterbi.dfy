/** Viterbi decoding (`DiscreteHmm::Viterbi`) as max-plus dynamic
    programming over log-space scores.

    With N states, initial scores Pi, transition scores A (N x N) and
    emission scores B (N x M), all natural logs of probabilities:

      delta[0][i] = Pi[i] + B[i][obs[0]]                      psi[0][i] = -1
      delta[t][j] = max_k (delta[t-1][k] + A[k][j]) + B[j][obs[t]]
      psi[t][j]   = the first k reaching that maximum (strict `>`)

    The best path ends in the first state with the largest delta[t][.]
    and is read back through psi.  The definitions here follow that
    recurrence; the code's slips are modelled separately at the end. */
module Viterbi {
  import opened LogProbs
  import opened Options
  import Matrices

  /** The model lambda = (Pi, A, B) as log-space scores, for n states
      (`NumStates()`) and m symbols (`NumSymbols()`). */
  datatype Lambda = Lambda(n: nat, m: nat, pi: seq<LogProb>, a: seq<seq<LogProb>>, b: seq<seq<LogProb>>)

  /** Observations 0..t are symbol ids; later ones are never read. */
  ghost predicate Symbols(obs: seq<int>, t: nat, m: nat) {
    forall s :: 0 <= s <= t && s < |obs| ==> 0 <= obs[s] < m
  }

  /** Every entry decoding up to index t reads exists: there is at least
      one state, Pi covers the n states, B is at least n x m, observations
      0..t are symbol ids, and, when there is an induction step at all
      (t >= 1), A is at least n x n.  The source reads these entries
      without checks. */
  ghost predicate Shaped(lam: Lambda, obs: seq<int>, t: nat) {
    && lam.n > 0
    && |lam.pi| >= lam.n
    && (t >= 1 ==> |lam.a| >= lam.n && forall k :: 0 <= k < lam.n ==> |lam.a[k]| >= lam.n)
    && |lam.b| >= lam.n
    && (forall j :: 0 <= j < lam.n ==> |lam.b[j]| >= lam.m)
    && Symbols(obs, t, lam.m)
  }

  /** Decoding up to index 0 reads only observation 0: a later entry that
      is no symbol id does not make the model unfit for it. */
  lemma LaterObservationsUnread()
    ensures Shaped(Lambda(1, 1, [Fin(0.0)], [], [[Fin(0.0)]]), [0, -1], 0)
    ensures !Shaped(Lambda(1, 1, [Fin(0.0)], [], [[Fin(0.0)]]), [0, -1], 1)
  {
  }

  /** A sequence of n-state ids. */
  ghost predicate StatePath(p: seq<int>, n: nat) {
    forall i :: 0 <= i < |p| ==> 0 <= p[i] < n
  }

  /** Entry i of a score vector; outside it, probability zero.  Under
      `Shaped` only entries inside are ever asked for. */
  function At(v: seq<LogProb>, i: int): LogProb {
    if 0 <= i < |v| then v[i] else NegInf
  }

  /** Cell (i, j) of a score matrix, in the same way. */
  function Cell(m: seq<seq<LogProb>>, i: int, j: int): LogProb {
    if 0 <= i < |m| then At(m[i], j) else NegInf
  }

  /** B[j][obs[t]]: state j emitting the t-th observation. */
  function Emit(lam: Lambda, obs: seq<int>, t: nat, j: int): LogProb
    requires t < |obs|
  {
    Cell(lam.b, j, obs[t])
  }

  /** Pi[i] + B[i][obs[0]]: starting in state i. */
  function Start(lam: Lambda, obs: seq<int>, i: int): LogProb
    requires |obs| > 0
  {
    At(lam.pi, i).Plus(Emit(lam, obs, 0, i))
  }

  /** The first index of the largest of c[0..m): the termination loop
      `if (c[k] > best) { best = c[k]; arg = k; }` started from c[0]. */
  function ArgMax(c: seq<LogProb>, m: nat): (r: nat)
    requires 0 < m <= |c|
    ensures r < m
    ensures forall i :: 0 <= i < m ==> c[i].Le(c[r])
    ensures forall i :: 0 <= i < r ==> c[i].Lt(c[r])
    decreases m
  {
    if m == 1 then 0
    else
      var k := ArgMax(c, m - 1);
      if c[m - 1].Gt(c[k]) then m - 1 else k
  }

  /** The largest entry of a non-empty sequence. */
  function Max(c: seq<LogProb>): LogProb
    requires |c| > 0
  {
    c[ArgMax(c, |c|)]
  }

  /** delta[t-1][k] + A[k][j]: reaching state j at time t from state k. */
  function Cand(lam: Lambda, obs: seq<int>, t: nat, j: int, k: nat): LogProb
    requires lam.n > 0 && 0 < t < |obs| && k < lam.n
    decreases t, 0, 0
  {
    DeltaAt(lam, obs, t - 1, k).Plus(Cell(lam.a, k, j))
  }

  /** The first of the predecessors 0..m-1 of state j at time t with the
      largest candidate: the induction loop over k with a strict `>`. */
  function BestPred(lam: Lambda, obs: seq<int>, t: nat, j: int, m: nat): (r: nat)
    requires lam.n > 0 && 0 < t < |obs| && 0 < m <= lam.n
    ensures r < m
    ensures forall k :: 0 <= k < m ==> Cand(lam, obs, t, j, k).Le(Cand(lam, obs, t, j, r))
    ensures forall k :: 0 <= k < r ==> Cand(lam, obs, t, j, k).Lt(Cand(lam, obs, t, j, r))
    decreases t, 1, m
  {
    if m == 1 then 0
    else
      var r := BestPred(lam, obs, t, j, m - 1);
      if Cand(lam, obs, t, j, m - 1).Gt(Cand(lam, obs, t, j, r)) then m - 1 else r
  }

  /** delta[t][j]: the best score of a path for obs[0..t] ending in j. */
  function DeltaAt(lam: Lambda, obs: seq<int>, t: nat, j: int): LogProb
    requires lam.n > 0 && t < |obs|
    decreases t, 2, 0
  {
    if t == 0 then Start(lam, obs, j)
    else Cand(lam, obs, t, j, BestPred(lam, obs, t, j, lam.n)).Plus(Emit(lam, obs, t, j))
  }

  /** Column t of the Viterbi lattice. */
  function Delta(lam: Lambda, obs: seq<int>, t: nat): (col: seq<LogProb>)
    requires lam.n > 0 && t < |obs|
    ensures |col| == lam.n
  {
    seq(lam.n, j => DeltaAt(lam, obs, t, j))
  }

  /** The back pointer psi[t][j]: -1 at t = 0 (the start), else the first
      best predecessor. */
  function Psi(lam: Lambda, obs: seq<int>, t: nat, j: int): (k: int)
    requires lam.n > 0 && t < |obs|
    ensures t == 0 ==> k == -1
    ensures t > 0 ==> 0 <= k < lam.n
  {
    if t == 0 then -1 else BestPred(lam, obs, t, j, lam.n)
  }

  /** The score of a state path for the first |p| observations: the sum of
      its initial, transition and emission scores. */
  function Score(lam: Lambda, obs: seq<int>, p: seq<int>): LogProb
    requires 1 <= |p| <= |obs|
    decreases |p|
  {
    if |p| == 1 then Start(lam, obs, p[0])
    else
      var t := |p| - 1;
      Score(lam, obs, p[..t]).Plus(Cell(lam.a, p[t - 1], p[t])).Plus(Emit(lam, obs, t, p[t]))
  }

  /** The path read back through psi from state j at time t. */
  function Backtrack(lam: Lambda, obs: seq<int>, t: nat, j: nat): (p: seq<int>)
    requires lam.n > 0 && t < |obs| && j < lam.n
    ensures |p| == t + 1 && StatePath(p, lam.n) && p[t] == j
    decreases t
  {
    if t == 0 then [j] else Backtrack(lam, obs, t - 1, Psi(lam, obs, t, j)) + [j]
  }

  /** The decoded path for the first t + 1 observations. */
  function BestPath(lam: Lambda, obs: seq<int>, t: nat): (p: seq<int>)
    requires lam.n > 0 && t < |obs|
    ensures |p| == t + 1 && StatePath(p, lam.n)
  {
    Backtrack(lam, obs, t, ArgMax(Delta(lam, obs, t), lam.n))
  }

  // ---------------------------------------------------------------------
  // Properties of the recurrence

  /** Extending a path by one state adds that transition and emission. */
  lemma {:induction false} ScoreSnoc(lam: Lambda, obs: seq<int>, q: seq<int>, j: int)
    requires 1 <= |q| < |obs|
    ensures Score(lam, obs, q + [j]) ==
      Score(lam, obs, q).Plus(Cell(lam.a, q[|q| - 1], j)).Plus(Emit(lam, obs, |q|, j))
  {
    var p := q + [j];
    assert p[..|q|] == q;
    assert p[|q| - 1] == q[|q| - 1] && p[|q|] == j;
  }

  /** The path read back from (t, j) scores exactly delta[t][j]. */
  lemma {:induction false} BacktrackScore(lam: Lambda, obs: seq<int>, t: nat, j: nat)
    requires lam.n > 0 && t < |obs| && j < lam.n
    ensures Score(lam, obs, Backtrack(lam, obs, t, j)) == DeltaAt(lam, obs, t, j)
    decreases t
  {
    if t > 0 {
      var k := Psi(lam, obs, t, j);
      var q := Backtrack(lam, obs, t - 1, k);
      BacktrackScore(lam, obs, t - 1, k);
      ScoreSnoc(lam, obs, q, j);
    }
  }

  /** No path ending in state p[t] at time t scores more than
      delta[t][p[t]]. */
  lemma {:induction false} DeltaBound(lam: Lambda, obs: seq<int>, p: seq<int>)
    requires lam.n > 0 && StatePath(p, lam.n) && 1 <= |p| <= |obs|
    ensures Score(lam, obs, p).Le(DeltaAt(lam, obs, |p| - 1, p[|p| - 1]))
    decreases |p|
  {
    var t := |p| - 1;
    if t == 0 {
      OrderFacts(Score(lam, obs, p), Score(lam, obs, p), Score(lam, obs, p));
    } else {
      var q := p[..t];
      var k, j := p[t - 1], p[t];
      assert q[t - 1] == k;
      DeltaBound(lam, obs, q);
      var s := Score(lam, obs, q);
      var step := Cell(lam.a, k, j);
      var e := Emit(lam, obs, t, j);
      assert Score(lam, obs, p) == s.Plus(step).Plus(e);
      PlusMonotone(s, DeltaAt(lam, obs, t - 1, k), step);
      var best := Cand(lam, obs, t, j, BestPred(lam, obs, t, j, lam.n));
      OrderFacts(s.Plus(step), Cand(lam, obs, t, j, k), best);
      PlusMonotone(s.Plus(step), best, e);
    }
  }

  /** The decoded path scores exactly the largest entry of the last
      column, and no state path of the same length scores more; so the
      result is -INF exactly when every path has probability zero. */
  lemma BestPathOptimal(lam: Lambda, obs: seq<int>, t: nat)
    requires lam.n > 0 && t < |obs|
    ensures Score(lam, obs, BestPath(lam, obs, t)) == Max(Delta(lam, obs, t))
    ensures forall p :: StatePath(p, lam.n) && |p| == t + 1 ==> Score(lam, obs, p).Le(Max(Delta(lam, obs, t)))
    ensures Max(Delta(lam, obs, t)).NegInf? <==>
      forall p :: StatePath(p, lam.n) && |p| == t + 1 ==> Score(lam, obs, p).NegInf?
  {
    var col := Delta(lam, obs, t);
    var best := Max(col);
    BacktrackScore(lam, obs, t, ArgMax(col, lam.n));
    forall p | StatePath(p, lam.n) && |p| == t + 1
      ensures Score(lam, obs, p).Le(best)
    {
      DeltaBound(lam, obs, p);
      OrderFacts(Score(lam, obs, p), col[p[t]], best);
    }
    if best.NegInf? {
      forall p | StatePath(p, lam.n) && |p| == t + 1
        ensures Score(lam, obs, p).NegInf?
      {
        assert Score(lam, obs, p).Le(best);
      }
    }
  }

  /** The path read back from (t, j) is linked by the back pointers: each
      state but the first is reached from its predecessor through psi,
      p[i-1] == psi[i][p[i]]. */
  lemma {:induction false} BacktrackLink(lam: Lambda, obs: seq<int>, t: nat, j: nat, i: nat)
    requires lam.n > 0 && t < |obs| && j < lam.n && 1 <= i <= t
    ensures Backtrack(lam, obs, t, j)[i - 1] == Psi(lam, obs, i, Backtrack(lam, obs, t, j)[i])
    decreases t
  {
    var k := Psi(lam, obs, t, j);
    var q := Backtrack(lam, obs, t - 1, k);
    var p := q + [j];
    assert Backtrack(lam, obs, t, j) == p;
    if i < t {
      BacktrackLink(lam, obs, t - 1, k, i);
      assert p[i - 1] == q[i - 1] && p[i] == q[i];
    } else {
      assert p[t - 1] == q[t - 1] == k;
      assert p[t] == j;
    }
  }

  /** Every stored score is a log-probability (-INF or at most 0). */
  ghost predicate WellFormedModel(lam: Lambda) {
    && (forall i :: 0 <= i < |lam.pi| ==> lam.pi[i].WellFormed())
    && (forall k, j :: 0 <= k < |lam.a| && 0 <= j < |lam.a[k]| ==> lam.a[k][j].WellFormed())
    && (forall j, o :: 0 <= j < |lam.b| && 0 <= o < |lam.b[j]| ==> lam.b[j][o].WellFormed())
  }

  /** A model of log-probabilities scores every path with a
      log-probability, so never with the rejection value 1.0. */
  lemma {:induction false} ScoreWellFormed(lam: Lambda, obs: seq<int>, p: seq<int>)
    requires WellFormedModel(lam) && 1 <= |p| <= |obs|
    ensures Score(lam, obs, p).WellFormed()
    decreases |p|
  {
    var t := |p| - 1;
    if t == 0 {
      PlusWellFormed(At(lam.pi, p[0]), Emit(lam, obs, 0, p[0]));
    } else {
      var q := p[..t];
      assert q[t - 1] == p[t - 1];
      ScoreWellFormed(lam, obs, q);
      PlusWellFormed(Score(lam, obs, q), Cell(lam.a, p[t - 1], p[t]));
      PlusWellFormed(Score(lam, obs, q).Plus(Cell(lam.a, p[t - 1], p[t])), Emit(lam, obs, t, p[t]));
    }
  }

  // ---------------------------------------------------------------------
  // The decoding loops

  /** Shaped models read the stored entries directly. */
  lemma ShapedEntries(lam: Lambda, obs: seq<int>, t: nat, k: nat, j: nat)
    requires Shaped(lam, obs, t) && t < |obs| && k < lam.n && j < lam.n
    ensures t >= 1 ==> Cell(lam.a, k, j) == lam.a[k][j]
    ensures Emit(lam, obs, t, j) == lam.b[j][obs[t]]
    ensures t == 0 ==> Start(lam, obs, j) == lam.pi[j].Plus(lam.b[j][obs[0]])
  {
    assert 0 <= obs[t] < lam.m;
  }

  /** One column of the induction step: for every state j, the best
      predecessor in the previous column (first one on ties) and the
      resulting score. */
  method InductionColumn(lam: Lambda, obs: seq<int>, i: nat, left: seq<LogProb>)
    returns (right: seq<LogProb>, ptrCol: seq<int>)
    requires Shaped(lam, obs, i) && 0 < i < |obs|
    requires |left| == lam.n && forall k :: 0 <= k < lam.n ==> left[k] == DeltaAt(lam, obs, i - 1, k)
    ensures |right| == lam.n && |ptrCol| == lam.n
    ensures forall j :: 0 <= j < lam.n ==> right[j] == DeltaAt(lam, obs, i, j) && ptrCol[j] == Psi(lam, obs, i, j)
  {
    var n := lam.n;
    right, ptrCol := [], [];
    var j := 0;
    while j < n
      invariant j <= n && |right| == j && |ptrCol| == j
      invariant forall q :: 0 <= q < j ==> right[q] == DeltaAt(lam, obs, i, q) && ptrCol[q] == Psi(lam, obs, i, q)
    {
      ShapedEntries(lam, obs, i, 0, j);
      var arg := 0;
      var best := left[0].Plus(lam.a[0][j]);
      var k := 1;
      while k < n
        invariant 1 <= k <= n && arg < k
        invariant arg == BestPred(lam, obs, i, j, k)
        invariant best == Cand(lam, obs, i, j, arg)
      {
        ShapedEntries(lam, obs, i, k, j);
        var c := left[k].Plus(lam.a[k][j]);
        if c.Gt(best) {
          arg, best := k, c;
        }
        k := k + 1;
      }
      ptrCol := ptrCol + [arg];
      right := right + [best.Plus(lam.b[j][obs[i]])];
      j := j + 1;
    }
  }

  /** Initialisation and induction: columns 0..t of the delta and psi
      lattices, column 0 of psi holding the start sentinel -1. */
  method Lattices(lam: Lambda, obs: seq<int>, t: nat) returns (cols: seq<seq<LogProb>>, ptrs: seq<seq<int>>)
    requires Shaped(lam, obs, t) && t < |obs|
    ensures |cols| == t + 1 && |ptrs| == t + 1
    ensures forall s :: 0 <= s <= t ==> cols[s] == Delta(lam, obs, s)
    ensures forall s :: 0 <= s <= t ==> |ptrs[s]| == lam.n
    ensures forall s, j :: 0 <= s <= t && 0 <= j < lam.n ==> ptrs[s][j] == Psi(lam, obs, s, j)
  {
    var n := lam.n;
    forall j | 0 <= j < n
      ensures Start(lam, obs, j) == lam.pi[j].Plus(lam.b[j][obs[0]])
    {
      ShapedEntries(lam, obs, 0, j, j);
    }
    cols := [seq(n, j requires 0 <= j < n => lam.pi[j].Plus(lam.b[j][obs[0]]))];
    ptrs := [seq(n, _ => -1)];
    assert cols[0] == Delta(lam, obs, 0);
    var i := 1;
    while i <= t
      invariant 1 <= i <= t + 1 && |cols| == i && |ptrs| == i
      invariant forall s :: 0 <= s < i ==> cols[s] == Delta(lam, obs, s)
      invariant forall s :: 0 <= s < i ==> |ptrs[s]| == n
      invariant forall s, j :: 0 <= s < i && 0 <= j < n ==> ptrs[s][j] == Psi(lam, obs, s, j)
    {
      var right, ptrCol := InductionColumn(lam, obs, i, cols[i - 1]);
      assert right == Delta(lam, obs, i);
      cols, ptrs := cols + [right], ptrs + [ptrCol];
      i := i + 1;
    }
  }

  /** Termination: the first state with the largest final score. */
  method Terminate(last: seq<LogProb>) returns (arg: nat)
    requires |last| > 0
    ensures arg == ArgMax(last, |last|)
  {
    arg := 0;
    var k := 1;
    while k < |last|
      invariant 1 <= k <= |last| && arg == ArgMax(last, k)
    {
      if last[k].Gt(last[arg]) {
        arg := k;
      }
      k := k + 1;
    }
  }

  /** Path backtracking: `output` resized to `len` entries, entry t set to
      the final state and entries t-1 down to 0 read through the back
      pointers. */
  method ReadPath(lam: Lambda, obs: seq<int>, t: nat, ptrs: seq<seq<int>>, arg: nat, output0: seq<int>)
    returns (output: seq<int>)
    requires lam.n > 0 && t < |obs| && arg < lam.n && |ptrs| == t + 1
    requires forall s :: 0 <= s <= t ==> |ptrs[s]| == lam.n
    requires forall s, j :: 0 <= s <= t && 0 <= j < lam.n ==> ptrs[s][j] == Psi(lam, obs, s, j)
    ensures |output| == |obs| && output[..t + 1] == Backtrack(lam, obs, t, arg)
    ensures forall q :: t < q < |obs| ==> output[q] == if q < |output0| then output0[q] else 0
  {
    var path := Backtrack(lam, obs, t, arg);
    output := Matrices.ResizeRow(output0, |obs|, 0);
    output := output[t := arg];
    var s := t;
    while s > 0
      invariant 0 <= s <= t && |output| == |obs|
      invariant forall q :: s <= q <= t ==> output[q] == path[q]
      invariant forall q :: t < q < |obs| ==> output[q] == if q < |output0| then output0[q] else 0
    {
      BacktrackLink(lam, obs, t, arg, s);
      output := output[s - 1 := ptrs[s][output[s]]];
      s := s - 1;
    }
    assert output[..t + 1] == path;
  }

  /** `Viterbi(observations, t, output)`: decodes the first t + 1
      observations.  An index outside the observations is rejected with
      the value 1.0 (not a log-probability) and `output` untouched.
      Otherwise `output` is resized to one entry per observation, its
      first t + 1 entries hold the decoded path, later entries keep their
      old values (zero where the vector grew), and the result is the
      path's score: the best score of any state path. */
  method Decode(lam: Lambda, obs: seq<int>, t: int, output0: seq<int>) returns (score: LogProb, output: seq<int>)
    requires 0 <= t < |obs| ==> Shaped(lam, obs, t)
    ensures !(0 <= t < |obs|) ==> score == Fin(1.0) && output == output0
    ensures 0 <= t < |obs| ==>
      && |output| == |obs|
      && output[..t + 1] == BestPath(lam, obs, t)
      && score == Max(Delta(lam, obs, t))
      && Score(lam, obs, output[..t + 1]) == score
      && (forall p :: StatePath(p, lam.n) && |p| == t + 1 ==> Score(lam, obs, p).Le(score))
      && (forall q :: t < q < |obs| ==> output[q] == if q < |output0| then output0[q] else 0)
  {
    if t < 0 || t >= |obs| {
      return Fin(1.0), output0;
    }
    var cols, ptrs := Lattices(lam, obs, t);
    var arg := Terminate(cols[t]);
    score := cols[t][arg];
    output := ReadPath(lam, obs, t, ptrs, arg, output0);
    BestPathOptimal(lam, obs, t);
  }

  // ---------------------------------------------------------------------
  // The source as it stands.  `Decode` above follows the recurrence the
  // comments describe; the members below model the four places where the
  // code departs from it.

  /** The range check as written rejects `t < 0 || t > observations.size()`,
      so t == |obs| passes, although the lattices have only the columns
      0..|obs|-1 (and for an empty sequence even observation 0 is
      missing). */
  predicate GuardAsWritten(t: int, len: nat) {
    !(t < 0 || t > len)
  }

  /** The written check admits exactly one index more than `Decode`:
      the one past the last observation. */
  lemma GuardAsWrittenAdmitsEnd(len: nat)
    ensures GuardAsWritten(len, len)
    ensures forall t :: GuardAsWritten(t, len) <==> 0 <= t < len || t == len
  {
  }

  /** The running `pair<int,double> max` of the code, updated over
      c[0..m) by `if (c[k] > max.second)` (the termination's
      `max.second < c[k]` is the same test), starting from `init`. */
  function SentinelMax(c: seq<LogProb>, m: nat, init: (int, LogProb)): (int, LogProb)
    requires m <= |c|
    decreases m
  {
    if m == 0 then init
    else
      var r := SentinelMax(c, m - 1, init);
      if c[m - 1].Gt(r.1) then (m - 1, c[m - 1]) else r
  }

  /** The starting scores of the two loops: "some large negative number". */
  const InductionSentinel := Fin(-10000000.0)
  const TerminationSentinel := Fin(-1000000.0)

  /** Starting from a sentinel instead of from c[0] gives the first argmax
      whenever some entry beats the sentinel, and otherwise leaves the
      running pair untouched: its index is whatever the previous state left
      there (for the first state, the 0 that the value-initialised
      `pair<int,double> max` starts with), and its score is the
      sentinel, a finite value standing for probability zero. */
  lemma {:induction false} SentinelMaxAgrees(c: seq<LogProb>, m: nat, init: (int, LogProb))
    requires 0 < m <= |c|
    ensures (exists k :: 0 <= k < m && c[k].Gt(init.1)) ==> SentinelMax(c, m, init) == (ArgMax(c, m), c[ArgMax(c, m)])
    ensures (forall k :: 0 <= k < m ==> !c[k].Gt(init.1)) ==> SentinelMax(c, m, init) == init
    decreases m
  {
    var r := SentinelMax(c, m, init);
    if m > 1 {
      SentinelMaxAgrees(c, m - 1, init);
      var a := ArgMax(c, m - 1);
      if exists k :: 0 <= k < m - 1 && c[k].Gt(init.1) {
        var k :| 0 <= k < m - 1 && c[k].Gt(init.1);
        OrderFacts(init.1, c[k], c[a]);
      } else if c[m - 1].Gt(init.1) {
        forall k | 0 <= k < m - 1
          ensures c[k].Lt(c[m - 1])
        {
          OrderFacts(c[k], init.1, c[m - 1]);
        }
      }
    }
  }

  /** A state no predecessor can reach (every candidate is -INF): the
      code stores the sentinel plus the emission as its score, and keeps
      the previous state's pointer; the recurrence gives probability zero
      and the first predecessor. */
  lemma SentinelMaxUnreachable(c: seq<LogProb>, first: int)
    requires |c| > 0 && forall k :: 0 <= k < |c| ==> c[k] == NegInf
    ensures SentinelMax(c, |c|, (first, InductionSentinel)) == (first, InductionSentinel)
    ensures ArgMax(c, |c|) == 0 && Max(c) == NegInf
  {
    SentinelMaxAgrees(c, |c|, (first, InductionSentinel));
    var r := ArgMax(c, |c|);
    assert !c[0].Lt(c[r]);
  }

  /** Column step i as written: for each state j in order, the candidates
      `A[k][j] + leftCol[k]` are read from the left column as it stands
      (already overwritten for states before j), and the result is stored
      back into the LEFT column and the pointer column; the right column
      is not written.  The pointer of the running pair carries over from
      one state to the next. */
  function ColumnAsWritten(lam: Lambda, obs: seq<int>, i: nat, left: seq<LogProb>, ptrCol: seq<int>, j: nat, first: int)
    : (r: (seq<LogProb>, seq<int>, int))
    requires 0 < i < |obs| && j <= |left| == |ptrCol|
    ensures |r.0| == |left| && |r.1| == |ptrCol|
    decreases |left| - j
  {
    if j == |left| then (left, ptrCol, first)
    else
      var c := seq(|left|, k requires 0 <= k < |left| => Cell(lam.a, k, j).Plus(left[k]));
      var best := SentinelMax(c, |c|, (first, InductionSentinel));
      ColumnAsWritten(lam, obs, i, left[j := best.1.Plus(Emit(lam, obs, i, j))], ptrCol[j := best.0], j + 1, best.0)
  }

  /** Every column of the lattices holds one entry per state. */
  ghost predicate Columns(cols: seq<seq<LogProb>>, ptrs: seq<seq<int>>, n: nat) {
    |cols| == |ptrs| && (forall s :: 0 <= s < |cols| ==> |cols[s]| == n && |ptrs[s]| == n)
  }

  /** The induction loop as written, steps i..t. */
  function InductionAsWritten(lam: Lambda, obs: seq<int>, t: nat, cols: seq<seq<LogProb>>, ptrs: seq<seq<int>>, i: nat, first: int)
    : (r: (seq<seq<LogProb>>, seq<seq<int>>, int))
    requires 1 <= i <= t + 1 && t < |obs| && |cols| == |obs| && Columns(cols, ptrs, lam.n)
    ensures |r.0| == |cols| && Columns(r.0, r.1, lam.n)
    decreases t + 1 - i
  {
    if i > t then (cols, ptrs, first)
    else
      var step := ColumnAsWritten(lam, obs, i, cols[i - 1], ptrs[i], 0, first);
      InductionAsWritten(lam, obs, t, cols[i - 1 := step.0], ptrs[i := step.1], i + 1, step.2)
  }

  /** The induction as written writes only the columns before t, so
      column t keeps what it held before the loop. */
  lemma {:induction false} InductionAsWrittenKeepsLast(lam: Lambda, obs: seq<int>, t: nat,
      cols: seq<seq<LogProb>>, ptrs: seq<seq<int>>, i: nat, first: int)
    requires 1 <= i <= t + 1 && t < |obs| && |cols| == |obs| && Columns(cols, ptrs, lam.n)
    ensures InductionAsWritten(lam, obs, t, cols, ptrs, i, first).0[t] == cols[t]
    decreases t + 1 - i
  {
    if i <= t {
      var step := ColumnAsWritten(lam, obs, i, cols[i - 1], ptrs[i], 0, first);
      InductionAsWrittenKeepsLast(lam, obs, t, cols[i - 1 := step.0], ptrs[i := step.1], i + 1, step.2);
    }
  }

  /** The termination loop as written: the running pair records
      `ptrCol[i]`, the predecessor of the best final state, instead of the
      state i itself. */
  function TerminationAsWritten(last: seq<LogProb>, ptrCol: seq<int>, m: nat, init: (int, LogProb)): (int, LogProb)
    requires m <= |last| == |ptrCol|
    decreases m
  {
    if m == 0 then init
    else
      var r := TerminationAsWritten(last, ptrCol, m - 1, init);
      if r.1.Lt(last[m - 1]) then (ptrCol[m - 1], last[m - 1]) else r
  }

  /** Over a column of zeros, the termination returns 0.0 (probability 1)
      with the pointer of state 0. */
  lemma {:induction false} TerminationOverZeros(last: seq<LogProb>, ptrCol: seq<int>, m: nat, first: int)
    requires 0 < m <= |last| == |ptrCol|
    requires forall i :: 0 <= i < |last| ==> last[i] == Fin(0.0)
    ensures TerminationAsWritten(last, ptrCol, m, (first, TerminationSentinel)) == (ptrCol[0], Fin(0.0))
    decreases m
  {
    if m > 1 {
      TerminationOverZeros(last, ptrCol, m - 1, first);
    }
  }

  /** The termination loop runs the same comparisons as `SentinelMax`:
      it reaches the same score, and once some entry has beaten the
      starting score it holds the pointer of the state `SentinelMax` picks. */
  lemma {:induction false} TerminationTracksSentinelMax(last: seq<LogProb>, ptrCol: seq<int>, m: nat, init: (int, LogProb))
    requires m <= |last| == |ptrCol|
    ensures TerminationAsWritten(last, ptrCol, m, init).1 == SentinelMax(last, m, init).1
    ensures (exists k :: 0 <= k < m && last[k].Gt(init.1)) ==>
      0 <= SentinelMax(last, m, init).0 < m &&
      TerminationAsWritten(last, ptrCol, m, init).0 == ptrCol[SentinelMax(last, m, init).0]
    decreases m
  {
    if m > 0 {
      TerminationTracksSentinelMax(last, ptrCol, m - 1, init);
      if m > 1 {
        SentinelMaxAgrees(last, m - 1, init);
      }
    }
  }

  /** When some final score beats the sentinel, the written termination
      returns the best score with the back pointer of the first best state,
      ptrCol[argmax], where the recurrence records the state itself. */
  lemma TerminationAsWrittenRecordsPointer(last: seq<LogProb>, ptrCol: seq<int>, init: (int, LogProb))
    requires 0 < |last| == |ptrCol|
    requires exists k :: 0 <= k < |last| && last[k].Gt(init.1)
    ensures TerminationAsWritten(last, ptrCol, |last|, init)
         == (ptrCol[ArgMax(last, |last|)], last[ArgMax(last, |last|)])
  {
    TerminationTracksSentinelMax(last, ptrCol, |last|, init);
    SentinelMaxAgrees(last, |last|, init);
  }

  /** On the lattices of a first call, the score as written: column 0
      holds the start scores and the pointer column 0 holds -1
      (Hmm.cpp:500-503), every later column is zero, the induction runs,
      then the termination reads column t. */
  function ScoreAsWritten(lam: Lambda, obs: seq<int>, t: nat, ptrs: seq<seq<int>>, first: int): LogProb
    requires 1 <= t < |obs| && lam.n > 0 && |ptrs| == |obs|
    requires forall s :: 0 <= s < |ptrs| ==> |ptrs[s]| == lam.n
  {
    var cols := StartLattice(lam, obs);
    var ptrs0 := ptrs[0 := seq(lam.n, _ => -1)];
    var r := InductionAsWritten(lam, obs, t, cols, ptrs0, 1, first);
    TerminationAsWritten(r.0[t], r.1[t], lam.n, (r.2, TerminationSentinel)).1
  }

  /** The value lattice after `Reset` and the start loop: the start
      scores in column 0 and zeros in every other column. */
  function StartLattice(lam: Lambda, obs: seq<int>): (cols: seq<seq<LogProb>>)
    requires |obs| > 0
    ensures |cols| == |obs| && cols[0] == seq(lam.n, i => Start(lam, obs, i))
    ensures forall s :: 0 < s < |obs| ==> cols[s] == seq(lam.n, _ => Fin(0.0))
  {
    seq(|obs|, s => if s == 0 then seq(lam.n, i => Start(lam, obs, i)) else seq(lam.n, _ => Fin(0.0)))
  }

  /** Whatever the model, the written code reports probability 1 for any
      t >= 1, because the column it reads at the end was never written. */
  lemma ScoreAsWrittenIsZero(lam: Lambda, obs: seq<int>, t: nat, ptrs: seq<seq<int>>, first: int)
    requires 1 <= t < |obs| && lam.n > 0 && |ptrs| == |obs|
    requires forall s :: 0 <= s < |ptrs| ==> |ptrs[s]| == lam.n
    ensures ScoreAsWritten(lam, obs, t, ptrs, first) == Fin(0.0)
  {
    var cols := StartLattice(lam, obs);
    var ptrs0 := ptrs[0 := seq(lam.n, _ => -1)];
    var r := InductionAsWritten(lam, obs, t, cols, ptrs0, 1, first);
    InductionAsWrittenKeepsLast(lam, obs, t, cols, ptrs0, 1, first);
    TerminationOverZeros(r.0[t], r.1[t], lam.n, r.2);
  }

  /** A path from a state that cannot start has probability zero. */
  lemma {:induction false} NoStartScore(lam: Lambda, obs: seq<int>, p: seq<int>)
    requires 1 <= |p| <= |obs| && At(lam.pi, p[0]).NegInf?
    ensures Score(lam, obs, p).NegInf?
    decreases |p|
  {
    if |p| > 1 {
      var q := p[..|p| - 1];
      assert q[0] == p[0];
      NoStartScore(lam, obs, q);
    }
  }

  /** A model in which no state can start: every path has probability
      zero, which the recurrence reports as -INF and the written code, for
      any t >= 1, as 0.0. */
  lemma ImpossibleModel(lam: Lambda, obs: seq<int>, t: nat, ptrs: seq<seq<int>>, first: int)
    requires 1 <= t < |obs| && lam.n > 0 && |ptrs| == |obs|
    requires forall s :: 0 <= s < |ptrs| ==> |ptrs[s]| == lam.n
    requires forall i :: 0 <= i < lam.n ==> At(lam.pi, i).NegInf?
    ensures Max(Delta(lam, obs, t)).NegInf?
    ensures ScoreAsWritten(lam, obs, t, ptrs, first) == Fin(0.0)
  {
    forall p | StatePath(p, lam.n) && |p| == t + 1
      ensures Score(lam, obs, p).NegInf?
    {
      NoStartScore(lam, obs, p);
    }
    BestPathOptimal(lam, obs, t);
    ScoreAsWrittenIsZero(lam, obs, t, ptrs, first);
  }

  /** Path backtracking as written: the last entry of `output` gets the
      recorded pointer, then entries t-1 down to 0 are read as
      `_ptrLattice[i][output[i+1]]`, through column i instead of column
      i+1.  `None` stands for a read outside the pointer lattice. */
  function BacktrackAsWritten(ptrs: seq<seq<int>>, output: seq<int>, i: int): (r: Option<seq<int>>)
    requires -1 <= i < |output| - 1 && |output| <= |ptrs|
    ensures r.Some? ==> |r.value| == |output|
    decreases i + 1
  {
    if i < 0 then Some(output)
    else if 0 <= output[i + 1] < |ptrs[i]| then BacktrackAsWritten(ptrs, output[i := ptrs[i][output[i + 1]]], i - 1)
    else None
  }

  /** The written backtracking from entry i down, over pointer columns
      that follow a path P (the start column -1), when the entries after i
      already hold P shifted one place right behind a -1: the whole
      output becomes that shifted path. */
  lemma {:induction false} BacktrackShiftsFrom(ptrs: seq<seq<int>>, path: seq<int>, output: seq<int>, i: int)
    requires |path| == |output| == |ptrs| && |path| >= 2
    requires -1 <= i < |output| - 1
    requires forall s :: 0 <= s < |path| ==> 0 <= path[s] < |ptrs[s]|
    requires forall s :: 1 <= s < |path| ==> ptrs[s][path[s]] == path[s - 1]
    requires ptrs[0][path[0]] == -1
    requires forall s :: i < s < |output| ==> output[s] == if s == 0 then -1 else path[s - 1]
    ensures BacktrackAsWritten(ptrs, output, i) == Some([-1] + path[..|path| - 1])
    decreases i + 1
  {
    if i < 0 {
      assert output == [-1] + path[..|path| - 1];
    } else {
      assert output[i + 1] == path[i];
      BacktrackShiftsFrom(ptrs, path, output[i := ptrs[i][output[i + 1]]], i - 1);
    }
  }

  /** With t the last index, pointer columns that follow a path P (the
      start column -1) and a final column whose first best state is P[t]
      and beats the sentinel: the written termination hands over
      ptrCol[P[t]] = P[t-1], and the written backtracking from it yields P
      shifted one place to the right behind a -1, instead of P. */
  lemma BacktrackAsWrittenShifts(ptrs: seq<seq<int>>, path: seq<int>, last: seq<LogProb>, first: int, output: seq<int>)
    requires |path| == |output| == |ptrs| && |path| >= 2
    requires forall s :: 0 <= s < |path| ==> 0 <= path[s] < |ptrs[s]|
    requires forall s :: 1 <= s < |path| ==> ptrs[s][path[s]] == path[s - 1]
    requires ptrs[0][path[0]] == -1
    requires |last| == |ptrs[|ptrs| - 1]|
    requires exists k :: 0 <= k < |last| && last[k].Gt(TerminationSentinel)
    requires ArgMax(last, |last|) == path[|path| - 1]
    ensures var term := TerminationAsWritten(last, ptrs[|ptrs| - 1], |last|, (first, TerminationSentinel));
      && term == (path[|path| - 2], Max(last))
      && BacktrackAsWritten(ptrs, output[|output| - 1 := term.0], |output| - 2) == Some([-1] + path[..|path| - 1])
  {
    var t := |path| - 1;
    TerminationAsWrittenRecordsPointer(last, ptrs[t], (first, TerminationSentinel));
    var term := TerminationAsWritten(last, ptrs[t], |last|, (first, TerminationSentinel));
    assert term.0 == path[t - 1];
    BacktrackShiftsFrom(ptrs, path, output[t := term.0], t - 1);
  }
}

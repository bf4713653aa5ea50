/** Natural-log probabilities with an explicit zero-probability value.

    The engine stores every probability as its natural logarithm and
    represents probability zero by the IEEE-754 value -infinity.  Only the
    parts of the IEEE algebra the discrete algorithms rely on are modelled:
    addition (product in linear space) and the strict orderings used by the
    argmax loops.  Positive infinity and NaN never arise from well-formed
    log-probabilities and are not represented.
 */
module LogProbs {

  /** A log-space value: -infinity (probability zero) or a finite real. */
  datatype LogProb = NegInf | Fin(r: real) {

    /** Log-space product: -INF absorbs everything, finite values add. */
    function Plus(o: LogProb): LogProb {
      if NegInf? || o.NegInf? then NegInf else Fin(r + o.r)
    }

    /** Strict `<` on doubles, where -INF is below every finite value. */
    predicate Lt(o: LogProb) {
      match (this, o)
      case (NegInf, NegInf) => false
      case (NegInf, Fin(_)) => true
      case (Fin(_), NegInf) => false
      case (Fin(x), Fin(y)) => x < y
    }

    /** Strict `>`, the comparison the argmax loops use. */
    predicate Gt(o: LogProb) {
      o.Lt(this)
    }

    /** Non-strict `<=`. */
    predicate Le(o: LogProb) {
      !o.Lt(this)
    }

    /** The natural log of a probability in [0,1]: -INF or a finite value <= 0. */
    predicate WellFormed() {
      NegInf? || r <= 0.0
    }
  }

  /** The log-space product of a whole sequence of factors. */
  function Sum(xs: seq<LogProb>): LogProb
    decreases |xs|
  {
    if |xs| == 0 then Fin(0.0) else Sum(xs[..|xs| - 1]).Plus(xs[|xs| - 1])
  }

  /** The four rules the engine assumes of -INF: it absorbs finite
      summands and itself, it is below every finite value, and it is
      above nothing. */
  lemma NegInfRules(a: LogProb)
    ensures a.Fin? ==> NegInf.Plus(a) == NegInf && a.Plus(NegInf) == NegInf
    ensures NegInf.Plus(NegInf) == NegInf
    ensures a.Fin? ==> NegInf.Lt(a)
    ensures !NegInf.Gt(a)
  {
  }

  /** Addition is commutative and associative, so the order in which a
      path's factors are combined does not matter. */
  lemma PlusAlgebra(a: LogProb, b: LogProb, c: LogProb)
    ensures a.Plus(b) == b.Plus(a)
    ensures a.Plus(b).Plus(c) == a.Plus(b.Plus(c))
    ensures a.Plus(Fin(0.0)) == a
  {
  }

  /** `Le` is a total preorder and `Lt` is its strict part. */
  lemma OrderFacts(a: LogProb, b: LogProb, c: LogProb)
    ensures a.Le(a)
    ensures a.Le(b) || b.Le(a)
    ensures a.Le(b) && b.Le(c) ==> a.Le(c)
    ensures a.Le(b) && b.Le(a) ==> a == b
    ensures a.Lt(b) <==> a.Le(b) && a != b
  {
  }

  /** Adding the same factor preserves `<=`: the max-plus monotonicity the
      Viterbi optimality argument needs. */
  lemma PlusMonotone(a: LogProb, b: LogProb, c: LogProb)
    requires a.Le(b)
    ensures a.Plus(c).Le(b.Plus(c))
  {
  }

  /** The product of probabilities is a probability. */
  lemma PlusWellFormed(a: LogProb, b: LogProb)
    requires a.WellFormed() && b.WellFormed()
    ensures a.Plus(b).WellFormed()
    ensures a.Plus(b).Le(a) && a.Plus(b).Le(b)
  {
  }

  /** -INF means probability zero: a product is -INF exactly when one of
      its factors is. */
  lemma {:induction false} SumNegInf(xs: seq<LogProb>)
    ensures Sum(xs).NegInf? <==> exists i :: 0 <= i < |xs| && xs[i].NegInf?
  {
    if |xs| > 0 {
      var init := xs[..|xs| - 1];
      SumNegInf(init);
      assert forall i :: 0 <= i < |init| ==> init[i] == xs[i];
      if Sum(xs).NegInf? && !xs[|xs| - 1].NegInf? {
        var i :| 0 <= i < |init| && init[i].NegInf?;
        assert xs[i].NegInf?;
      }
    }
  }

  /** A product of well-formed factors is well-formed and no larger than
      any of its factors. */
  lemma {:induction false} SumWellFormed(xs: seq<LogProb>)
    requires forall i :: 0 <= i < |xs| ==> xs[i].WellFormed()
    ensures Sum(xs).WellFormed()
    ensures forall i :: 0 <= i < |xs| ==> Sum(xs).Le(xs[i])
  {
    if |xs| > 0 {
      var init := xs[..|xs| - 1];
      SumWellFormed(init);
      PlusWellFormed(Sum(init), xs[|xs| - 1]);
      forall i | 0 <= i < |xs|
        ensures Sum(xs).Le(xs[i])
      {
        if i < |init| {
          assert init[i] == xs[i];
          OrderFacts(Sum(xs), Sum(init), xs[i]);
        }
      }
    }
  }
}

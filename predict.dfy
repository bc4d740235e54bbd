/**
 * Prediction from a fitted categorical Naive Bayes model: per class, the
 * class log-prior plus the sum over features of the table entry selected
 * by the row's code; the predicted class is the first maximum. The
 * optional quantization rounds every probability to a number of decimal
 * places, floors it at 1e-12 and takes its logarithm again, entry by
 * entry, before anything is summed. `exp` and `log` are parameters: the
 * model works over exact reals, and only uses their monotonicity.
 */
module Predict {
  import opened Strings

  /** The floor `np.clip(..., 1e-12, None)` puts under a rounded probability. */
  const MinProb: real := 0.000000000001

  function Pow10(n: nat): (r: real)
    ensures r >= 1.0
  {
    if n == 0 then 1.0 else 10.0 * Pow10(n - 1)
  }

  /** `10^d` for any integer `d`, as `np.round` scales by it. */
  function Scale(d: int): (r: real)
    ensures r > 0.0
  {
    if d >= 0 then Pow10(d) else 1.0 / Pow10(-d)
  }

  /** numpy's `rint`: the nearest integer, ties to the even one. */
  function RoundHalfEven(y: real): (r: int)
    ensures y - 0.5 <= r as real <= y + 0.5
    ensures (r as real - y == 0.5 || y - r as real == 0.5) ==> r % 2 == 0
  {
    var f := y.Floor;
    var frac := y - f as real;
    if frac < 0.5 then f
    else if frac > 0.5 then f + 1
    else if f % 2 == 0 then f else f + 1
  }

  lemma RoundHalfEvenMonotone(x: real, y: real)
    requires x <= y
    ensures RoundHalfEven(x) <= RoundHalfEven(y)
  {
    var fx, fy := x.Floor, y.Floor;
    if fx == fy {
      assert x - fx as real <= y - fy as real;
    } else {
      assert fx < fy;
    }
  }

  lemma RoundHalfEvenOfInteger(n: int)
    ensures RoundHalfEven(n as real) == n
  {
    assert (n as real).Floor == n;
  }

  /** Rounds `p` to a multiple of `1 / s`, as `np.round` does with `s = 10^d`. */
  function ScaledRound(p: real, s: real): real
    requires s > 0.0
  {
    RoundHalfEven(p * s) as real / s
  }

  /** `np.round(p, d)`: round half to even at `d` decimal places. */
  function Round(p: real, d: int): real {
    ScaledRound(p, Scale(d))
  }

  /** Multiplying by a positive scale keeps the order of two values. */
  lemma MulPreservesOrder(a: real, b: real, s: real)
    requires a <= b && s > 0.0
    ensures a * s <= b * s
  {
  }

  /** Dividing by a positive scale and multiplying back gives the value again. */
  lemma DivThenMulCancels(n: real, s: real)
    requires s > 0.0
    ensures (n / s) * s == n
  {
  }

  /** Dividing by a positive scale keeps the order of two values. */
  lemma DivPreservesOrder(a: real, b: real, s: real)
    requires a <= b && s > 0.0
    ensures a / s <= b / s
  {
  }

  lemma ScaleBack(p: real, s: real, n: real)
    requires s > 0.0 && p * s - 0.5 <= n <= p * s + 0.5
    ensures p - 0.5 / s <= n / s <= p + 0.5 / s
  {
    var y := p * s;
    DivPreservesOrder(y - 0.5, n, s);
    DivPreservesOrder(n, y + 0.5, s);
    assert (y - 0.5) / s == y / s - 0.5 / s;
    assert (y + 0.5) / s == y / s + 0.5 / s;
    assert y / s == p;
  }

  lemma ScaledRoundBounds(p: real, s: real)
    requires s > 0.0
    ensures p - 0.5 / s <= ScaledRound(p, s) <= p + 0.5 / s
  {
    var n := RoundHalfEven(p * s) as real;
    DivThenMulCancels(n, s);
    ScaleBack(p, s, n);
  }

  lemma ScaledRoundMonotone(p: real, q: real, s: real)
    requires p <= q && s > 0.0
    ensures ScaledRound(p, s) <= ScaledRound(q, s)
  {
    MulPreservesOrder(p, q, s);
    RoundHalfEvenMonotone(p * s, q * s);
    DivPreservesOrder(RoundHalfEven(p * s) as real, RoundHalfEven(q * s) as real, s);
  }

  lemma ScaledRoundIdempotent(p: real, s: real)
    requires s > 0.0
    ensures ScaledRound(ScaledRound(p, s), s) == ScaledRound(p, s)
  {
    var n := RoundHalfEven(p * s);
    DivThenMulCancels(n as real, s);
    assert ScaledRound(p, s) * s == n as real;
    RoundHalfEvenOfInteger(n);
  }

  /** Rounding moves a value by at most half a unit in the last kept place. */
  lemma RoundBounds(p: real, d: int)
    ensures p - 0.5 / Scale(d) <= Round(p, d) <= p + 0.5 / Scale(d)
  {
    ScaledRoundBounds(p, Scale(d));
  }

  /** Rounding never inverts the order of two probabilities. */
  lemma RoundMonotone(p: real, q: real, d: int)
    requires p <= q
    ensures Round(p, d) <= Round(q, d)
  {
    ScaledRoundMonotone(p, q, Scale(d));
  }

  /** A rounded value already has `d` decimal places: rounding it again changes nothing. */
  lemma RoundIdempotent(p: real, d: int)
    ensures Round(Round(p, d), d) == Round(p, d)
  {
    ScaledRoundIdempotent(p, Scale(d));
  }

  /** `np.clip(np.round(p, d), 1e-12, None)`. */
  function Quantize(p: real, d: int): (r: real)
    ensures r >= MinProb && r >= Round(p, d)
    ensures r == Round(p, d) || r == MinProb
  {
    var q := Round(p, d);
    if q < MinProb then MinProb else q
  }

  lemma QuantizeMonotone(p: real, q: real, d: int)
    requires p <= q
    ensures Quantize(p, d) <= Quantize(q, d)
  {
    RoundMonotone(p, q, d);
  }

  /** Fitted log-probabilities: `class_log_prior_` and `feature_log_prob_`. */
  datatype LogModel = LogModel(logPrior: seq<real>, logTables: seq<seq<seq<real>>>)

  /** At least one class; table f has one row per class, all of one width K_f. */
  predicate WellShaped(m: LogModel) {
    && |m.logPrior| >= 1
    && forall f :: 0 <= f < |m.logTables| ==>
         && |m.logTables[f]| == |m.logPrior|
         && forall c :: 0 <= c < |m.logTables[f]| ==> |m.logTables[f][c]| == |m.logTables[f][0]|
  }

  /** K_f, the number of categories of feature f. */
  function Width(m: LogModel, f: nat): nat
    requires WellShaped(m) && f < |m.logTables|
  {
    |m.logTables[f][0]|
  }

  /** `log(clip(round(exp(x), d), 1e-12))` of one log-probability. */
  function QuantizeEntry(x: real, d: int, exp: real -> real, log: real -> real): real {
    log(Quantize(exp(x), d))
  }

  /** Quantizes every prior and every table entry on its own. */
  function QuantizeModel(m: LogModel, d: int, exp: real -> real, log: real -> real): (q: LogModel)
    ensures |q.logPrior| == |m.logPrior| && |q.logTables| == |m.logTables|
    ensures forall c :: 0 <= c < |m.logPrior| ==> q.logPrior[c] == QuantizeEntry(m.logPrior[c], d, exp, log)
    ensures forall f :: 0 <= f < |m.logTables| ==> |q.logTables[f]| == |m.logTables[f]|
    ensures forall f, c :: 0 <= f < |m.logTables| && 0 <= c < |m.logTables[f]| ==>
              |q.logTables[f][c]| == |m.logTables[f][c]|
    ensures forall f, c, k :: 0 <= f < |m.logTables| && 0 <= c < |m.logTables[f]| && 0 <= k < |m.logTables[f][c]| ==>
              q.logTables[f][c][k] == QuantizeEntry(m.logTables[f][c][k], d, exp, log)
    ensures WellShaped(m) ==> WellShaped(q)
  {
    var priors := seq(|m.logPrior|, c requires 0 <= c < |m.logPrior| => QuantizeEntry(m.logPrior[c], d, exp, log));
    var tables := seq(|m.logTables|, f requires 0 <= f < |m.logTables| =>
      seq(|m.logTables[f]|, c requires 0 <= c < |m.logTables[f]| =>
        seq(|m.logTables[f][c]|, k requires 0 <= k < |m.logTables[f][c]| =>
          QuantizeEntry(m.logTables[f][c][k], d, exp, log))));
    LogModel(priors, tables)
  }

  /** The model `predict_proba` scores with: as fitted, or quantized. */
  function EffectiveModel(m: LogModel, precision: Option<int>, exp: real -> real, log: real -> real): LogModel {
    match precision
    case None => m
    case Some(d) => QuantizeModel(m, d, exp, log)
  }

  /**
   * Every quantized entry is the logarithm of a value at least 1e-12, so
   * no entry is the logarithm of zero.
   */
  lemma QuantizedEntriesFloored(m: LogModel, d: int, exp: real -> real, log: real -> real, f: nat, c: nat, k: nat)
    requires f < |m.logTables| && c < |m.logTables[f]| && k < |m.logTables[f][c]|
    ensures exists p :: p >= MinProb && QuantizeModel(m, d, exp, log).logTables[f][c][k] == log(p)
  {
    var p := Quantize(exp(m.logTables[f][c][k]), d);
    assert QuantizeModel(m, d, exp, log).logTables[f][c][k] == log(p);
  }

  /** `np.argmax`: the index of the first maximum. */
  function ArgMax(s: seq<real>): (r: nat)
    requires |s| > 0
    ensures r < |s|
    ensures forall j :: 0 <= j < |s| ==> s[j] <= s[r]
    ensures forall j :: 0 <= j < r ==> s[j] < s[r]
  {
    if |s| == 1 then 0
    else
      var k := ArgMax(s[..|s| - 1]);
      if s[|s| - 1] > s[k] then |s| - 1 else k
  }

  /** The first maximum is the only index that is a maximum with no equal before it. */
  lemma ArgMaxUnique(s: seq<real>, r: nat)
    requires r < |s|
    requires forall j :: 0 <= j < |s| ==> s[j] <= s[r]
    requires forall j :: 0 <= j < r ==> s[j] < s[r]
    ensures ArgMax(s) == r
  {
  }

  /**
   * A strictly increasing map of the scores keeps the first maximum where
   * it was. `predict_proba` takes the arg-max of `exp(score - logsumexp)`,
   * which is such a map of the raw scores.
   */
  lemma ArgMaxMonotone(s: seq<real>, g: real -> real)
    requires |s| > 0
    requires forall x, y :: x < y ==> g(x) < g(y)
    ensures ArgMax(seq(|s|, i requires 0 <= i < |s| => g(s[i]))) == ArgMax(s)
  {
    var t := seq(|s|, i requires 0 <= i < |s| => g(s[i]));
    var k := ArgMax(s);
    forall j | 0 <= j < |s| ensures t[j] <= t[k] {
      if s[j] < s[k] { assert g(s[j]) < g(s[k]); }
    }
    forall j | 0 <= j < k ensures t[j] < t[k] {
      assert g(s[j]) < g(s[k]);
    }
    ArgMaxUnique(t, k);
  }

  /** The normalised posterior has the same arg-max as the raw scores. */
  lemma PosteriorArgMax(scores: seq<real>, exp: real -> real, logSumExp: real)
    requires |scores| > 0
    requires forall x, y :: x < y ==> exp(x) < exp(y)
    ensures ArgMax(seq(|scores|, i requires 0 <= i < |scores| => exp(scores[i] - logSumExp))) == ArgMax(scores)
  {
    var g := (x: real) => exp(x - logSumExp);
    forall x: real, y: real | x < y ensures g(x) < g(y) {
      assert exp(x - logSumExp) < exp(y - logSumExp);
    }
    ArgMaxMonotone(scores, g);
    assert seq(|scores|, i requires 0 <= i < |scores| => g(scores[i]))
        == seq(|scores|, i requires 0 <= i < |scores| => exp(scores[i] - logSumExp));
  }

  /** Every row has one code per feature. */
  predicate RowsFit(m: LogModel, X: seq<seq<nat>>) {
    forall r :: 0 <= r < |X| ==> |X[r]| == |m.logTables|
  }

  /** Every row's code for feature f selects a column of table f. */
  predicate CodesInRange(m: LogModel, X: seq<seq<nat>>, f: nat)
    requires WellShaped(m) && RowsFit(m, X) && f < |m.logTables|
  {
    forall r :: 0 <= r < |X| ==> X[r][f] < Width(m, f)
  }

  /** The first feature, from f on, that some row indexes out of range. */
  function FirstInvalidFeature(m: LogModel, X: seq<seq<nat>>, f: nat): (r: nat)
    requires WellShaped(m) && RowsFit(m, X) && f <= |m.logTables|
    ensures f <= r <= |m.logTables|
    ensures forall g :: f <= g < r ==> CodesInRange(m, X, g)
    ensures r < |m.logTables| ==> !CodesInRange(m, X, r)
    decreases |m.logTables| - f
  {
    if f == |m.logTables| || !CodesInRange(m, X, f) then f
    else FirstInvalidFeature(m, X, f + 1)
  }

  /** The score matrix has two columns; a single class is broadcast to both. */
  function ClassColumn(classes: nat, j: nat): nat {
    if classes == 1 then 0 else j
  }

  /** The row's codes for its first n features select columns of their tables. */
  predicate PrefixInRange(m: LogModel, row: seq<nat>, n: nat)
    requires WellShaped(m) && |row| == |m.logTables| && n <= |m.logTables|
  {
    forall f :: 0 <= f < n ==> row[f] < Width(m, f)
  }

  lemma RowsInRange(m: LogModel, X: seq<seq<nat>>, n: nat)
    requires WellShaped(m) && RowsFit(m, X) && n <= |m.logTables|
    requires forall g :: 0 <= g < n ==> CodesInRange(m, X, g)
    ensures forall r :: 0 <= r < |X| ==> PrefixInRange(m, X[r], n)
  {
    forall r, f | 0 <= r < |X| && 0 <= f < n ensures X[r][f] < Width(m, f) {
      assert CodesInRange(m, X, f);
    }
  }

  /** Sum over the first n features of `table[f][c][row[f]]`. */
  function FeatureSum(m: LogModel, row: seq<nat>, c: nat, n: nat): real
    requires WellShaped(m) && |row| == |m.logTables| && n <= |m.logTables| && c < |m.logPrior|
    requires PrefixInRange(m, row, n)
  {
    if n == 0 then 0.0
    else
      assert |m.logTables[n - 1][c]| == Width(m, n - 1);
      FeatureSum(m, row, c, n - 1) + m.logTables[n - 1][c][row[n - 1]]
  }

  /** The joint log-likelihood of class c for one row. */
  function Score(m: LogModel, row: seq<nat>, c: nat): real
    requires WellShaped(m) && |row| == |m.logTables| && c < |m.logPrior|
    requires PrefixInRange(m, row, |row|)
  {
    FeatureSum(m, row, c, |row|) + m.logPrior[c]
  }

  /** The row of the two-column score matrix for one row of X. */
  function JointScores(m: LogModel, row: seq<nat>): (s: seq<real>)
    requires WellShaped(m) && |m.logPrior| <= 2 && |row| == |m.logTables|
    requires PrefixInRange(m, row, |row|)
    ensures |s| == 2
  {
    var C := |m.logPrior|;
    [Score(m, row, ClassColumn(C, 0)), Score(m, row, ClassColumn(C, 1))]
  }

  datatype PredictError = InvalidFeatureCode(feature: nat) | ClassCountMismatch

  datatype Prediction = Predicted(classes: seq<nat>) | Failed(error: PredictError)

  /**
   * What `predict_proba` returns for X: an index error at the first feature
   * with an out-of-range code, a broadcast error when the model does not
   * have one or two classes (raised at the first feature's addition, or at
   * the prior's when there are no features), otherwise the first arg-max
   * of each row's two scores.
   */
  function PredictAll(m: LogModel, X: seq<seq<nat>>): Prediction
    requires WellShaped(m) && RowsFit(m, X)
  {
    var C := |m.logPrior|;
    var bad := FirstInvalidFeature(m, X, 0);
    if C != 1 && C != 2 then
      if |m.logTables| > 0 && bad == 0 then Failed(InvalidFeatureCode(0)) else Failed(ClassCountMismatch)
    else if bad < |m.logTables| then Failed(InvalidFeatureCode(bad))
    else
      RowsInRange(m, X, |m.logTables|);
      Predicted(seq(|X|, r requires 0 <= r < |X| => ArgMax(JointScores(m, X[r]))))
  }

  /** Every row's partial sums over its first i features, for the two columns. */
  function PartialSums(m: LogModel, X: seq<seq<nat>>, c0: nat, c1: nat, i: nat): (s: seq<seq<real>>)
    requires WellShaped(m) && RowsFit(m, X) && i <= |m.logTables|
    requires c0 < |m.logPrior| && c1 < |m.logPrior|
    requires forall r :: 0 <= r < |X| ==> PrefixInRange(m, X[r], i)
    ensures |s| == |X| && forall r :: 0 <= r < |X| ==> |s[r]| == 2
  {
    seq(|X|, r requires 0 <= r < |X| => [FeatureSum(m, X[r], c0, i), FeatureSum(m, X[r], c1, i)])
  }

  /** One in-place addition `jll += table[:, X[:, i]].T` on the two columns. */
  function AddFeature(m: LogModel, X: seq<seq<nat>>, jll: seq<seq<real>>, c0: nat, c1: nat, i: nat)
    : (s: seq<seq<real>>)
    requires WellShaped(m) && RowsFit(m, X) && i < |m.logTables| && CodesInRange(m, X, i)
    requires c0 < |m.logPrior| && c1 < |m.logPrior|
    requires |jll| == |X| && forall r :: 0 <= r < |X| ==> |jll[r]| == 2
    ensures |s| == |X|
  {
    var table := m.logTables[i];
    seq(|X|, r requires 0 <= r < |X| =>
      [jll[r][0] + table[c0][X[r][i]], jll[r][1] + table[c1][X[r][i]]])
  }

  /** Adding feature i to the sums over the first i features gives the sums over i + 1. */
  lemma AddFeatureStep(m: LogModel, X: seq<seq<nat>>, c0: nat, c1: nat, i: nat)
    requires WellShaped(m) && RowsFit(m, X) && i < |m.logTables|
    requires c0 < |m.logPrior| && c1 < |m.logPrior|
    requires forall g :: 0 <= g <= i ==> CodesInRange(m, X, g)
    ensures forall r :: 0 <= r < |X| ==> PrefixInRange(m, X[r], i)
    ensures forall r :: 0 <= r < |X| ==> PrefixInRange(m, X[r], i + 1)
    ensures AddFeature(m, X, PartialSums(m, X, c0, c1, i), c0, c1, i)
            == PartialSums(m, X, c0, c1, i + 1)
  {
    RowsInRange(m, X, i + 1);
    RowsInRange(m, X, i);
  }

  /**
   * `predict_proba(X, clf, precision)`: picks the fitted or the quantized
   * tables, accumulates the score matrix feature by feature, adds the
   * priors and takes each row's first arg-max. (The normalisation by
   * log-sum-exp before the arg-max is left to `PosteriorArgMax`.)
   */
  method PredictProba(X: seq<seq<nat>>, clf: LogModel, precision: Option<int>,
                      exp: real -> real, log: real -> real) returns (r: Prediction)
    requires WellShaped(clf) && RowsFit(clf, X)
    ensures r == PredictAll(EffectiveModel(clf, precision, exp, log), X)
  {
    var m := clf;
    if precision.Some? {
      m := QuantizeModel(clf, precision.value, exp, log);
    }
    r := PredictWith(m, X);
  }

  /** The score accumulation and arg-max of `predict_proba` on the chosen tables. */
  method PredictWith(m: LogModel, X: seq<seq<nat>>) returns (r: Prediction)
    requires WellShaped(m) && RowsFit(m, X)
    ensures r == PredictAll(m, X)
  {
    var C := |m.logPrior|;
    var c0, c1 := ClassColumn(C, 0), ClassColumn(C, 1);
    var jll: seq<seq<real>> := seq(|X|, r requires 0 <= r < |X| => [0.0, 0.0]);
    var i := 0;
    while i < |m.logTables|
      invariant 0 <= i <= |m.logTables|
      invariant forall g :: 0 <= g < i ==> CodesInRange(m, X, g)
      invariant i > 0 ==> C == 1 || C == 2
      invariant forall r :: 0 <= r < |X| ==> PrefixInRange(m, X[r], i)
      invariant (C == 1 || C == 2) ==> jll == PartialSums(m, X, c0, c1, i)
      invariant |jll| == |X| && forall r :: 0 <= r < |X| ==> |jll[r]| == 2
    {
      if !CodesInRange(m, X, i) {
        assert FirstInvalidFeature(m, X, 0) == i;
        return Failed(InvalidFeatureCode(i));
      }
      if C != 1 && C != 2 {
        return Failed(ClassCountMismatch);
      }
      AddFeatureStep(m, X, c0, c1, i);
      jll := AddFeature(m, X, jll, c0, c1, i);
      i := i + 1;
    }
    if C != 1 && C != 2 {
      return Failed(ClassCountMismatch);
    }
    var total := seq(|X|, r requires 0 <= r < |X| => [jll[r][0] + m.logPrior[c0], jll[r][1] + m.logPrior[c1]]);
    assert forall r :: 0 <= r < |X| ==> total[r] == JointScores(m, X[r]);
    r := Predicted(seq(|X|, r requires 0 <= r < |X| => ArgMax(total[r])));
  }

  /**
   * A successful prediction is a class 0 or 1 per row; it is 0 for a
   * one-class model, and for two classes it is 1 exactly when class 1
   * scores strictly higher, so a tie goes to class 0.
   */
  lemma PredictAllClasses(m: LogModel, X: seq<seq<nat>>, r: nat)
    requires WellShaped(m) && RowsFit(m, X) && PredictAll(m, X).Predicted? && r < |X|
    ensures |PredictAll(m, X).classes| == |X|
    ensures PredictAll(m, X).classes[r] < 2
    ensures PrefixInRange(m, X[r], |X[r]|)
    ensures |m.logPrior| == 1 ==> PredictAll(m, X).classes[r] == 0
    ensures |m.logPrior| == 2 ==>
              (PredictAll(m, X).classes[r] == 1 <==> Score(m, X[r], 1) > Score(m, X[r], 0))
  {
    RowsInRange(m, X, |m.logTables|);
  }
}

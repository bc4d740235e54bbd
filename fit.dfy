/**
 * What `CategoricalNB(min_categories=...).fit(X, y)` computes with its
 * default smoothing alpha = 1. This is the library's behaviour, not code
 * of the generator: the classes are the distinct target codes in
 * ascending order, the class prior is the class's share of the rows
 * (unsmoothed), feature f has K_f = max(largest code + 1, min_categories[f])
 * categories, and the probability of category k given class c is
 * (count(k, c) + 1) / (count(c) + K_f).
 */
module CategoricalFit {
  import opened Predict

  /** How often `v` occurs in `s`. */
  function Count(s: seq<nat>, v: nat): nat
    decreases |s|
  {
    if s == [] then 0 else (if s[0] == v then 1 else 0) + Count(s[1..], v)
  }

  /** Σ over v < n of Count(s, v). */
  function CountBelow(s: seq<nat>, n: nat): nat {
    if n == 0 then 0 else CountBelow(s, n - 1) + Count(s, n - 1)
  }

  /** Peeling off the first element: it adds one exactly when it is below n. */
  lemma {:induction false} CountBelowCons(s: seq<nat>, n: nat)
    requires s != []
    ensures CountBelow(s, n) == CountBelow(s[1..], n) + (if s[0] < n then 1 else 0)
  {
    if n > 0 {
      CountBelowCons(s, n - 1);
    }
  }

  /** When every element is below n, the counts of 0..n-1 add up to the length. */
  lemma {:induction false} CountBelowAll(s: seq<nat>, n: nat)
    requires forall i :: 0 <= i < |s| ==> s[i] < n
    ensures CountBelow(s, n) == |s|
    decreases |s|
  {
    if s == [] {
      CountBelowEmpty(n);
    } else {
      CountBelowCons(s, n);
      CountBelowAll(s[1..], n);
    }
  }

  lemma {:induction false} CountBelowEmpty(n: nat)
    ensures CountBelow([], n) == 0
  {
    if n > 0 {
      CountBelowEmpty(n - 1);
    }
  }

  /** The feature-f codes of the rows whose class is c. */
  function Select(X: seq<seq<nat>>, y: seq<nat>, f: nat, c: nat): seq<nat>
    requires |X| == |y| && forall i :: 0 <= i < |X| ==> f < |X[i]|
    decreases |X|
  {
    if X == [] then []
    else (if y[0] == c then [X[0][f]] else []) + Select(X[1..], y[1..], f, c)
  }

  /** Every selected code is the feature-f code of some row. */
  lemma {:induction false} SelectFrom(X: seq<seq<nat>>, y: seq<nat>, f: nat, c: nat, j: nat)
    requires |X| == |y| && forall i :: 0 <= i < |X| ==> f < |X[i]|
    requires j < |Select(X, y, f, c)|
    ensures exists i :: 0 <= i < |X| && Select(X, y, f, c)[j] == X[i][f]
    decreases |X|
  {
    var head := if y[0] == c then [X[0][f]] else [];
    var rest := Select(X[1..], y[1..], f, c);
    assert Select(X, y, f, c) == head + rest;
    if j < |head| {
      assert Select(X, y, f, c)[j] == X[0][f];
    } else {
      SelectFrom(X[1..], y[1..], f, c, j - |head|);
      var i :| 0 <= i < |X[1..]| && rest[j - |head|] == X[1..][i][f];
      assert Select(X, y, f, c)[j] == X[i + 1][f];
    }
  }

  /** Class c has as many selected codes as rows. */
  lemma {:induction false} SelectLength(X: seq<seq<nat>>, y: seq<nat>, f: nat, c: nat)
    requires |X| == |y| && forall i :: 0 <= i < |X| ==> f < |X[i]|
    ensures |Select(X, y, f, c)| == Count(y, c)
    decreases |X|
  {
    if X != [] {
      SelectLength(X[1..], y[1..], f, c);
    }
  }

  /** One mark per row: 1 when the row has class c and category k in feature f, 0 otherwise. */
  function Hits(X: seq<seq<nat>>, y: seq<nat>, f: nat, c: nat, k: nat): (r: seq<nat>)
    requires |X| == |y| && forall i :: 0 <= i < |X| ==> f < |X[i]|
    ensures |r| == |X|
  {
    seq(|X|, i requires 0 <= i < |X| => if y[i] == c && X[i][f] == k then 1 else 0)
  }

  /**
   * The count of category k among class c's selected codes is the number of
   * rows with class c and category k: the count the library accumulates.
   */
  lemma {:induction false} SelectCounts(X: seq<seq<nat>>, y: seq<nat>, f: nat, c: nat, k: nat)
    requires |X| == |y| && forall i :: 0 <= i < |X| ==> f < |X[i]|
    ensures Count(Select(X, y, f, c), k) == Count(Hits(X, y, f, c, k), 1)
    decreases |X|
  {
    if X != [] {
      var rest := Select(X[1..], y[1..], f, c);
      SelectCounts(X[1..], y[1..], f, c, k);
      assert Hits(X, y, f, c, k)[1..] == Hits(X[1..], y[1..], f, c, k);
      if y[0] == c {
        assert Select(X, y, f, c) == [X[0][f]] + rest;
        assert ([X[0][f]] + rest)[1..] == rest;
      } else {
        assert Select(X, y, f, c) == rest;
      }
    }
  }

  /** The largest code of feature f plus one (0 when there are no rows). */
  function CodeBound(X: seq<seq<nat>>, f: nat): (r: nat)
    requires forall i :: 0 <= i < |X| ==> f < |X[i]|
    ensures forall i :: 0 <= i < |X| ==> X[i][f] < r
    ensures X != [] ==> exists i :: 0 <= i < |X| && r == X[i][f] + 1
    decreases |X|
  {
    if X == [] then 0
    else
      var rest := CodeBound(X[1..], f);
      assert forall i :: 1 <= i < |X| ==> X[i][f] == X[1..][i - 1][f];
      if X[0][f] + 1 >= rest then X[0][f] + 1
      else
        assert exists i :: 0 <= i < |X[1..]| && rest == X[1..][i][f] + 1;
        var i :| 0 <= i < |X[1..]| && rest == X[1..][i][f] + 1;
        assert rest == X[i + 1][f] + 1;
        rest
  }

  /** `n_categories_[f]`: K_f = max(largest code + 1, min_categories[f]). */
  function Categories(X: seq<seq<nat>>, f: nat, minCategories: nat): (k: nat)
    requires forall i :: 0 <= i < |X| ==> f < |X[i]|
    ensures k >= minCategories
    ensures forall i :: 0 <= i < |X| ==> X[i][f] < k
    ensures k == minCategories || exists i :: 0 <= i < |X| && k == X[i][f] + 1
  {
    var b := CodeBound(X, f);
    if b > minCategories then b else minCategories
  }

  /**
   * When every code comes from an encoder with min_categories classes,
   * the table is exactly min_categories wide.
   */
  lemma CategoriesFromEncoder(X: seq<seq<nat>>, f: nat, minCategories: nat)
    requires forall i :: 0 <= i < |X| ==> f < |X[i]| && X[i][f] < minCategories
    ensures Categories(X, f, minCategories) == minCategories
  {
    if X != [] {
      var i :| 0 <= i < |X| && CodeBound(X, f) == X[i][f] + 1;
    }
  }

  /** `classes_`: the target codes present among the first n, ascending. */
  function PresentBelow(y: seq<nat>, n: nat): seq<nat> {
    if n == 0 then []
    else PresentBelow(y, n - 1) + (if Count(y, n - 1) > 0 then [n - 1] else [])
  }

  /** Every listed class is below n and occurs in the target. */
  lemma {:induction false} PresentBelowSound(y: seq<nat>, n: nat)
    ensures forall j :: 0 <= j < |PresentBelow(y, n)| ==> PresentBelow(y, n)[j] < n && Count(y, PresentBelow(y, n)[j]) > 0
  {
    if n > 0 {
      PresentBelowSound(y, n - 1);
    }
  }

  /** The classes are listed in ascending order. */
  lemma {:induction false} PresentBelowAscending(y: seq<nat>, n: nat)
    ensures forall i, j :: 0 <= i < j < |PresentBelow(y, n)| ==> PresentBelow(y, n)[i] < PresentBelow(y, n)[j]
  {
    if n > 0 {
      PresentBelowAscending(y, n - 1);
      PresentBelowSound(y, n - 1);
    }
  }

  /** Every value below n that occurs is listed. */
  lemma {:induction false} PresentBelowComplete(y: seq<nat>, n: nat, v: nat)
    requires v < n && Count(y, v) > 0
    ensures v in PresentBelow(y, n)
  {
    if v < n - 1 {
      PresentBelowComplete(y, n - 1, v);
    }
  }

  /** Σ over the listed classes of their row counts. */
  function CountOver(y: seq<nat>, cs: seq<nat>): nat
    decreases |cs|
  {
    if cs == [] then 0 else CountOver(y, cs[..|cs| - 1]) + Count(y, cs[|cs| - 1])
  }

  lemma {:induction false} CountOverPresent(y: seq<nat>, n: nat)
    ensures CountOver(y, PresentBelow(y, n)) == CountBelow(y, n)
  {
    if n > 0 {
      CountOverPresent(y, n - 1);
      var p := PresentBelow(y, n - 1);
      if Count(y, n - 1) > 0 {
        var q := p + [n - 1];
        assert PresentBelow(y, n) == q;
        assert q[..|q| - 1] == p;
        assert CountOver(y, q) == CountOver(y, p) + Count(y, n - 1);
      } else {
        assert PresentBelow(y, n) == p + [];
        assert p + [] == p;
      }
    }
  }

  /** One more than the largest target code (0 when there are no rows), the range the classes come from. */
  function Bound(y: seq<nat>): (r: nat)
    ensures forall i :: 0 <= i < |y| ==> y[i] < r
    ensures y != [] ==> exists i :: 0 <= i < |y| && r == y[i] + 1
    decreases |y|
  {
    if y == [] then 0
    else
      var rest := Bound(y[1..]);
      assert forall i :: 1 <= i < |y| ==> y[i] == y[1..][i - 1];
      if y[0] + 1 >= rest then y[0] + 1
      else
        assert exists i :: 0 <= i < |y[1..]| && rest == y[1..][i] + 1;
        var i :| 0 <= i < |y[1..]| && rest == y[1..][i] + 1;
        assert rest == y[i + 1] + 1;
        rest
  }

  function Classes(y: seq<nat>): seq<nat> {
    PresentBelow(y, Bound(y))
  }

  /** Every row's class is among the classes, and the classes' counts cover all rows. */
  lemma ClassesCoverRows(y: seq<nat>)
    ensures forall i :: 0 <= i < |y| ==> y[i] in Classes(y)
    ensures CountOver(y, Classes(y)) == |y|
  {
    forall i | 0 <= i < |y| ensures y[i] in Classes(y) {
      CountPositive(y, i);
      PresentBelowComplete(y, Bound(y), y[i]);
    }
    CountOverPresent(y, Bound(y));
    CountBelowAll(y, Bound(y));
  }

  lemma {:induction false} CountPositive(y: seq<nat>, i: nat)
    requires i < |y|
    ensures Count(y, y[i]) > 0
    decreases |y|
  {
    if i > 0 {
      CountPositive(y[1..], i - 1);
    }
  }

  // ---------------------------------------------------------------- probabilities

  /** `exp(class_log_prior_[c])`: the class's share of the rows. */
  function Prior(y: seq<nat>, c: nat): real
    requires y != []
  {
    Count(y, c) as real / |y| as real
  }

  /** `exp(feature_log_prob_[f][c][k])`: Laplace-smoothed share of class c's rows. */
  function Likelihood(X: seq<seq<nat>>, y: seq<nat>, f: nat, c: nat, k: nat, K: nat): real
    requires |X| == |y| && forall i :: 0 <= i < |X| ==> f < |X[i]|
    requires Count(y, c) + K > 0
  {
    (Count(Select(X, y, f, c), k) + 1) as real / (Count(y, c) + K) as real
  }

  lemma AddFractions(a: real, b: real, d: real)
    requires d > 0.0
    ensures a / d + b / d == (a + b) / d
  {
  }

  lemma WholeFraction(a: nat, b: nat)
    requires a == b && b > 0
    ensures a as real / b as real == 1.0
  {
  }

  /** Σ over the listed classes of their priors. */
  function PriorMass(y: seq<nat>, cs: seq<nat>): real
    requires y != []
    decreases |cs|
  {
    if cs == [] then 0.0 else PriorMass(y, cs[..|cs| - 1]) + Prior(y, cs[|cs| - 1])
  }

  lemma {:induction false} PriorMassIsShare(y: seq<nat>, cs: seq<nat>)
    requires y != []
    ensures PriorMass(y, cs) == CountOver(y, cs) as real / |y| as real
    decreases |cs|
  {
    if cs != [] {
      PriorMassIsShare(y, cs[..|cs| - 1]);
      AddFractions(CountOver(y, cs[..|cs| - 1]) as real, Count(y, cs[|cs| - 1]) as real, |y| as real);
    }
  }

  /** The priors of the fitted classes add up to one. */
  lemma PriorsSumToOne(y: seq<nat>)
    requires y != []
    ensures PriorMass(y, Classes(y)) == 1.0
  {
    PriorMassIsShare(y, Classes(y));
    ClassesCoverRows(y);
    WholeFraction(CountOver(y, Classes(y)), |y|);
  }

  /** Σ over k < n of the likelihoods of class c. */
  function LikelihoodMass(X: seq<seq<nat>>, y: seq<nat>, f: nat, c: nat, K: nat, n: nat): real
    requires |X| == |y| && forall i :: 0 <= i < |X| ==> f < |X[i]|
    requires Count(y, c) + K > 0
  {
    if n == 0 then 0.0 else LikelihoodMass(X, y, f, c, K, n - 1) + Likelihood(X, y, f, c, n - 1, K)
  }

  lemma {:induction false} LikelihoodMassIsShare(X: seq<seq<nat>>, y: seq<nat>, f: nat, c: nat, K: nat, n: nat)
    requires |X| == |y| && forall i :: 0 <= i < |X| ==> f < |X[i]|
    requires Count(y, c) + K > 0
    ensures LikelihoodMass(X, y, f, c, K, n)
            == (CountBelow(Select(X, y, f, c), n) + n) as real / (Count(y, c) + K) as real
  {
    if n > 0 {
      LikelihoodMassIsShare(X, y, f, c, K, n - 1);
      AddFractions((CountBelow(Select(X, y, f, c), n - 1) + n - 1) as real,
                   (Count(Select(X, y, f, c), n - 1) + 1) as real, (Count(y, c) + K) as real);
    }
  }

  /** Each class's row of a feature table adds up to one over the K_f categories. */
  lemma LikelihoodsSumToOne(X: seq<seq<nat>>, y: seq<nat>, f: nat, c: nat, minCategories: nat)
    requires |X| == |y| && X != [] && forall i :: 0 <= i < |X| ==> f < |X[i]|
    ensures Categories(X, f, minCategories) > 0
    ensures LikelihoodMass(X, y, f, c, Categories(X, f, minCategories), Categories(X, f, minCategories)) == 1.0
  {
    var K := Categories(X, f, minCategories);
    assert X[0][f] < K;
    var s := Select(X, y, f, c);
    forall j | 0 <= j < |s| ensures s[j] < K {
      SelectFrom(X, y, f, c, j);
      var i :| 0 <= i < |X| && s[j] == X[i][f];
    }
    CountBelowAll(s, K);
    SelectLength(X, y, f, c);
    LikelihoodMassIsShare(X, y, f, c, K, K);
    WholeFraction(CountBelow(s, K) + K, Count(y, c) + K);
  }

  /** Every smoothed likelihood is positive, so its logarithm is finite. */
  lemma LikelihoodPositive(X: seq<seq<nat>>, y: seq<nat>, f: nat, c: nat, k: nat, K: nat)
    requires |X| == |y| && forall i :: 0 <= i < |X| ==> f < |X[i]|
    requires Count(y, c) + K > 0
    ensures Likelihood(X, y, f, c, k, K) > 0.0
  {
  }

  // ---------------------------------------------------------------- the fitted model

  /** `feature_log_prob_[f]`: one row of K log-likelihoods per class. */
  function FeatureTable(X: seq<seq<nat>>, y: seq<nat>, f: nat, K: nat, cs: seq<nat>, log: real -> real)
    : (t: seq<seq<real>>)
    requires |X| == |y| && forall i :: 0 <= i < |X| ==> f < |X[i]|
    requires forall ci :: 0 <= ci < |cs| ==> Count(y, cs[ci]) > 0
    ensures |t| == |cs| && forall ci :: 0 <= ci < |cs| ==> |t[ci]| == K
  {
    seq(|cs|, ci requires 0 <= ci < |cs| =>
      seq(K, k requires 0 <= k < K => log(Likelihood(X, y, f, cs[ci], k, K))))
  }

  /**
   * The fitted model as `predict_proba` reads it: log-priors per class
   * and, per feature, a classes-by-K_f table of log-likelihoods.
   */
  function Fit(X: seq<seq<nat>>, y: seq<nat>, minCategories: seq<nat>, log: real -> real): (m: LogModel)
    requires |X| == |y| && y != []
    requires forall i :: 0 <= i < |X| ==> |X[i]| == |minCategories|
    ensures WellShaped(m)
    ensures |m.logPrior| == |Classes(y)| && |m.logTables| == |minCategories|
    ensures forall f :: 0 <= f < |minCategories| ==> Width(m, f) == Categories(X, f, minCategories[f])
  {
    var cs := Classes(y);
    ClassesCoverRows(y);
    PresentBelowSound(y, Bound(y));
    assert y[0] in cs;
    var tables := FeatureTables(X, y, minCategories, cs, log);
    LogModel(seq(|cs|, ci requires 0 <= ci < |cs| => log(Prior(y, cs[ci]))), tables)
  }

  /** `feature_log_prob_`: one table per feature, K_f wide. */
  function FeatureTables(X: seq<seq<nat>>, y: seq<nat>, minCategories: seq<nat>, cs: seq<nat>,
                         log: real -> real): (ts: seq<seq<seq<real>>>)
    requires |X| == |y|
    requires forall i :: 0 <= i < |X| ==> |X[i]| == |minCategories|
    requires forall ci :: 0 <= ci < |cs| ==> Count(y, cs[ci]) > 0
    ensures |ts| == |minCategories|
    ensures forall f :: 0 <= f < |ts| ==> |ts[f]| == |cs|
    ensures forall f, ci :: 0 <= f < |ts| && 0 <= ci < |cs| ==> |ts[f][ci]| == Categories(X, f, minCategories[f])
  {
    var M := |minCategories|;
    seq(M, f requires 0 <= f < M => FeatureTable(X, y, f, Categories(X, f, minCategories[f]), cs, log))
  }

  /**
   * Fitted on codes from the encoders, every feature table is as wide as
   * its column's category count, so the classifier file's K_f lines agree
   * with the feature map's.
   */
  lemma FitWidths(X: seq<seq<nat>>, y: seq<nat>, minCategories: seq<nat>, log: real -> real)
    requires |X| == |y| && y != []
    requires forall i :: 0 <= i < |X| ==> |X[i]| == |minCategories|
    requires forall i, f :: 0 <= i < |X| && 0 <= f < |minCategories| ==> X[i][f] < minCategories[f]
    ensures forall f :: 0 <= f < |minCategories| ==> Width(Fit(X, y, minCategories, log), f) == minCategories[f]
  {
    forall f | 0 <= f < |minCategories|
      ensures Categories(X, f, minCategories[f]) == minCategories[f]
    {
      CategoriesFromEncoder(X, f, minCategories[f]);
    }
  }

  /** The five target codes of the example below: no = 0, yes = 1. */
  function ScenarioTarget(): seq<nat> {
    [0, 0, 1, 1, 0]
  }

  /** The five rows of the example: features A (x = 0, y = 1) and B (0, 1). */
  function ScenarioRows(): seq<seq<nat>> {
    [[0, 0], [0, 1], [1, 0], [1, 1], [0, 0]]
  }

  lemma ScenarioCounts()
    ensures Count(ScenarioTarget(), 0) == 3 && Count(ScenarioTarget(), 1) == 2
  {
    var y := ScenarioTarget();
    assert y[1..] == [0, 1, 1, 0] && y[1..][1..] == [1, 1, 0];
    assert y[1..][1..][1..] == [1, 0] && y[1..][1..][1..][1..] == [0];
    assert [0][1..] == [];
  }

  /** The example's classes are no and yes, with the unsmoothed priors 3/5 and 2/5. */
  lemma ScenarioPriors()
    ensures Classes(ScenarioTarget()) == [0, 1]
    ensures Prior(ScenarioTarget(), 0) == 3.0 / 5.0 && Prior(ScenarioTarget(), 1) == 2.0 / 5.0
  {
    var y := ScenarioTarget();
    ScenarioCounts();
    ScenarioBound();
    assert PresentBelow(y, 1) == [0];
    assert PresentBelow(y, 2) == [0, 1];
  }

  lemma ScenarioBound()
    ensures Bound(ScenarioTarget()) == 2
  {
    var y := ScenarioTarget();
    assert y[1..] == [0, 1, 1, 0] && y[1..][1..] == [1, 1, 0];
    assert y[1..][1..][1..] == [1, 0] && y[1..][1..][1..][1..] == [0];
    assert [0][1..] == [];
  }

  /** Feature A's codes for the rows of class no (rows 0, 1 and 4) are x, x, x. */
  lemma ScenarioSelect()
    ensures Select(ScenarioRows(), ScenarioTarget(), 0, 0) == [0, 0, 0]
  {
    ScenarioSelectRows1To4();
    assert ScenarioRows()[1..] == [[0, 1], [1, 0], [1, 1], [0, 0]];
    assert ScenarioTarget()[1..] == [0, 1, 1, 0];
  }

  /** The same selection over rows 1 to 4. */
  lemma ScenarioSelectRows1To4()
    ensures Select([[0, 1], [1, 0], [1, 1], [0, 0]], [0, 1, 1, 0], 0, 0) == [0, 0]
  {
    ScenarioSelectRows2To4();
    assert [[0, 1], [1, 0], [1, 1], [0, 0]][1..] == [[1, 0], [1, 1], [0, 0]];
    assert [0, 1, 1, 0][1..] == [1, 1, 0];
  }

  /** The same selection over rows 2 to 4. */
  lemma ScenarioSelectRows2To4()
    ensures Select([[1, 0], [1, 1], [0, 0]], [1, 1, 0], 0, 0) == [0]
  {
    ScenarioSelectRows3To4();
    assert [[1, 0], [1, 1], [0, 0]][1..] == [[1, 1], [0, 0]];
    assert [1, 1, 0][1..] == [1, 0];
  }

  /** The same selection over rows 3 and 4. */
  lemma ScenarioSelectRows3To4()
    ensures Select([[1, 1], [0, 0]], [1, 0], 0, 0) == [0]
  {
    assert [[1, 1], [0, 0]][1..] == [[0, 0]];
    assert [1, 0][1..] == [0];
    assert Select([[0, 0]], [0], 0, 0) == [0];
  }

  /** P(A = x | no) = (3 + 1) / (3 + 2) and P(A = y | no) = (0 + 1) / (3 + 2). */
  lemma ScenarioLikelihoods()
    ensures Likelihood(ScenarioRows(), ScenarioTarget(), 0, 0, 0, 2) == 4.0 / 5.0
    ensures Likelihood(ScenarioRows(), ScenarioTarget(), 0, 0, 1, 2) == 1.0 / 5.0
  {
    ScenarioCounts();
    ScenarioSelect();
    assert [0, 0, 0][1..] == [0, 0] && [0, 0][1..] == [0] && [0][1..] == [];
    assert Count([0, 0, 0], 0) == 3 && Count([0, 0, 0], 1) == 0;
  }
}

/**
 * How the pieces meet in the generator's main flow: the encoded table is
 * split into feature rows and the target column, the classifier is fitted
 * on a selection of those rows with the per-column category counts of all
 * columns but the target, and the feature map is written from the same
 * encoders. The row selection of `train_test_split` is a parameter.
 */
module Pipeline {
  import opened Encoding
  import opened Predict
  import opened CategoricalFit
  import opened FeatureMapFile

  /** All columns of the table have n rows. */
  predicate Rectangular(columns: seq<seq<Cell>>, n: nat) {
    forall j :: 0 <= j < |columns| ==> |columns[j]| == n
  }

  /** `X`: row i holds the codes of every column but the last. */
  function FeatureRows(t: EncodedTable, n: nat): (X: seq<seq<nat>>)
    requires |t.codes| > 0 && forall j :: 0 <= j < |t.codes| ==> |t.codes[j]| == n
    ensures |X| == n && forall i :: 0 <= i < n ==> |X[i]| == |t.codes| - 1
    ensures forall i, f :: 0 <= i < n && 0 <= f < |t.codes| - 1 ==> X[i][f] == t.codes[f][i]
  {
    var m := |t.codes| - 1;
    seq(n, i requires 0 <= i < n => seq(m, f requires 0 <= f < m => t.codes[f][i]))
  }

  /** `y`: the codes of the last column. */
  function TargetCodes(t: EncodedTable): seq<nat>
    requires |t.codes| > 0
  {
    t.codes[|t.codes| - 1]
  }

  /** Every encoder's classes are ascending, as the feature-map writer needs. */
  lemma EncodedClassesAscending(t: EncodedTable, headers: seq<string>, columns: seq<seq<Cell>>)
    requires |headers| == |columns| && EncodesTo(t, headers, columns)
    ensures forall j :: 0 <= j < |t.classes| ==> Ascending(t.classes[j])
  {
    forall j | 0 <= j < |t.classes| ensures Ascending(t.classes[j]) {
      assert t.classes[j] == EncodeColumn(columns[j]).value.classes;
      EncodeColumnSpec(columns[j]);
    }
  }

  /** Every feature code is below its column's category count. */
  lemma FeatureCodesInRange(t: EncodedTable, headers: seq<string>, columns: seq<seq<Cell>>, n: nat)
    requires |headers| == |columns| > 0 && EncodesTo(t, headers, columns) && Rectangular(columns, n)
    ensures forall j :: 0 <= j < |t.codes| ==> |t.codes[j]| == n
    ensures forall i, f :: 0 <= i < n && 0 <= f < |columns| - 1 ==>
              FeatureRows(t, n)[i][f] < FeatureMinCategories(t)[f]
  {
    forall i, f | 0 <= i < n && 0 <= f < |columns| - 1
      ensures FeatureRows(t, n)[i][f] < FeatureMinCategories(t)[f]
    {
      var e := EncodeColumn(columns[f]).value;
      EncodeColumnSpec(columns[f]);
      assert t.codes[f] == e.codes && t.minCategories[f] == |e.classes|;
      assert e.codes[i] < |e.classes|;
    }
  }

  /**
   * Fitted on any selection of the encoded rows, feature f's table is
   * exactly as wide as the number of categories the feature map lists for
   * feature f: the classifier file and the feature map agree on every K_f.
   */
  lemma FittedWidthsMatchFeatureMap(t: EncodedTable, headers: seq<string>, columns: seq<seq<Cell>>,
                                    n: nat, train: seq<nat>, log: real -> real)
    requires |headers| == |columns| > 0 && EncodesTo(t, headers, columns) && Rectangular(columns, n)
    requires train != [] && forall r :: 0 <= r < |train| ==> train[r] < n
    ensures forall j :: 0 <= j < |t.codes| ==> |t.codes[j]| == n
    ensures var X := FeatureRows(t, n);
            var Xt := seq(|train|, r requires 0 <= r < |train| => X[train[r]]);
            var yt := seq(|train|, r requires 0 <= r < |train| => TargetCodes(t)[train[r]]);
            var m := Fit(Xt, yt, FeatureMinCategories(t), log);
            |m.logTables| == |MapOf(t).labels|
            && forall f :: 0 <= f < |m.logTables| ==> Width(m, f) == |MapOf(t).labels[f]|
  {
    FeatureCodesInRange(t, headers, columns, n);
    var X := FeatureRows(t, n);
    var Xt := seq(|train|, r requires 0 <= r < |train| => X[train[r]]);
    var yt := seq(|train|, r requires 0 <= r < |train| => TargetCodes(t)[train[r]]);
    var mc := FeatureMinCategories(t);
    FitWidths(Xt, yt, mc, log);
    forall f | 0 <= f < |mc| ensures mc[f] == |MapOf(t).labels[f]| {
      assert mc[f] == |t.classes[f]|;
    }
  }
}

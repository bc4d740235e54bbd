/**
 * Per-column categorical encoding: headers are stripped, a column of
 * strings is stripped cell by cell, and each column's distinct values
 * get dense codes 0..K-1 in ascending order (scikit-learn's
 * `LabelEncoder`). The loop over the columns records, per column, the
 * encoder's classes and the category count.
 */
module Encoding {
  import opened Strings

  /** A raw cell as the CSV reader produces it: text or an integer. */
  datatype Cell = Str(text: string) | Int(value: int)

  /** Python's `str()` of a cell. */
  function CellToString(c: Cell): string {
    match c
    case Str(s) => s
    case Int(i) => IntToString(i)
  }

  /**
   * The sort order of `np.unique`/`sorted`: code-point order on text,
   * numeric order on integers. The clause putting integers before text
   * only makes the order total; columns mixing the two are rejected
   * before anything is sorted.
   */
  predicate CellLess(a: Cell, b: Cell) {
    match (a, b)
    case (Int(x), Int(y)) => x < y
    case (Str(x), Str(y)) => StrLess(x, y)
    case (Int(_), Str(_)) => true
    case (Str(_), Int(_)) => false
  }

  lemma CellLessIrreflexive(a: Cell)
    ensures !CellLess(a, a)
  {
    if a.Str? { StrLessIrreflexive(a.text); }
  }

  lemma CellLessTransitive(a: Cell, b: Cell, c: Cell)
    requires CellLess(a, b) && CellLess(b, c)
    ensures CellLess(a, c)
  {
    if a.Str? && b.Str? && c.Str? { StrLessTransitive(a.text, b.text, c.text); }
  }

  lemma CellLessTotal(a: Cell, b: Cell)
    ensures a == b || CellLess(a, b) || CellLess(b, a)
  {
    if a.Str? && b.Str? { StrLessTotal(a.text, b.text); }
  }

  lemma CellLessAsymmetric(a: Cell, b: Cell)
    requires CellLess(a, b)
    ensures !CellLess(b, a)
  {
    if CellLess(b, a) {
      CellLessTransitive(a, b, a);
      CellLessIrreflexive(a);
    }
  }

  /** Sorted ascending without duplicates: the shape of `classes_`. */
  predicate Ascending(s: seq<Cell>) {
    forall i, j :: 0 <= i < j < |s| ==> CellLess(s[i], s[j])
  }

  lemma AscendingDistinct(s: seq<Cell>, i: nat, j: nat)
    requires Ascending(s) && i < |s| && j < |s| && s[i] == s[j]
    ensures i == j
  {
    if i < j || j < i { CellLessIrreflexive(s[i]); }
  }

  lemma PrependAscending(x: Cell, s: seq<Cell>)
    requires Ascending(s)
    requires forall y :: y in s ==> CellLess(x, y)
    ensures Ascending([x] + s)
  {
    var t := [x] + s;
    forall i, j | 0 <= i < j < |t| ensures CellLess(t[i], t[j]) {
      if i == 0 { assert t[j] in s; }
    }
  }

  /** Inserts `x` at its place in an ascending sequence, unless present. */
  function Insert(s: seq<Cell>, x: Cell): (r: seq<Cell>)
    requires Ascending(s)
    ensures Ascending(r)
    ensures forall y :: y in r <==> y in s || y == x
  {
    if s == [] then [x]
    else if x == s[0] then s
    else if CellLess(x, s[0]) then
      InsertFront(s, x);
      [x] + s
    else
      CellLessTotal(x, s[0]);
      var t := Insert(s[1..], x);
      InsertBehind(s, x, t);
      [s[0]] + t
  }

  lemma InsertFront(s: seq<Cell>, x: Cell)
    requires Ascending(s) && s != [] && CellLess(x, s[0])
    ensures Ascending([x] + s)
  {
    forall y | y in s ensures CellLess(x, y) {
      var j :| 0 <= j < |s| && s[j] == y;
      if j > 0 { CellLessTransitive(x, s[0], y); }
    }
    PrependAscending(x, s);
  }

  lemma InsertBehind(s: seq<Cell>, x: Cell, t: seq<Cell>)
    requires Ascending(s) && s != [] && CellLess(s[0], x)
    requires Ascending(t)
    requires forall y :: y in t <==> y in s[1..] || y == x
    ensures Ascending([s[0]] + t)
  {
    forall y | y in t ensures CellLess(s[0], y) {
      if y != x {
        var j :| 0 <= j < |s[1..]| && s[1..][j] == y;
        assert s[j + 1] == y;
      }
    }
    PrependAscending(s[0], t);
  }

  /** The distinct values of a column in ascending order (`classes_`). */
  function SortedDistinct(cells: seq<Cell>): (r: seq<Cell>)
    ensures Ascending(r)
    ensures forall y :: y in r <==> y in cells
  {
    if cells == [] then []
    else
      var init := cells[..|cells| - 1];
      var r := Insert(SortedDistinct(init), cells[|cells| - 1]);
      assert forall y :: y in cells <==> y in init || y == cells[|cells| - 1] by {
        assert cells == init + [cells[|cells| - 1]];
      }
      r
  }

  /** A non-empty sequence holds its first element. */
  lemma HeadIsMember(t: seq<Cell>)
    requires t != []
    ensures t[0] in t
  {
  }

  /**
   * Any two ascending duplicate-free sequences with the same elements are
   * equal: `classes_` is determined by the set of values alone.
   */
  lemma {:induction false} AscendingUnique(s: seq<Cell>, t: seq<Cell>)
    requires Ascending(s) && Ascending(t)
    requires forall y :: y in s <==> y in t
    ensures s == t
    decreases |s|
  {
    if s == [] {
      if t != [] {
        HeadIsMember(t);
        assert false;
      }
    } else {
      HeadsEqual(s, t);
      TailsSameMembers(s, t);
      AscendingTail(s);
      AscendingTail(t);
      AscendingUnique(s[1..], t[1..]);
      assert s == [s[0]] + s[1..] && t == [t[0]] + t[1..];
    }
  }

  /** Two non-empty ascending sequences with the same members start with the same value. */
  lemma HeadsEqual(s: seq<Cell>, t: seq<Cell>)
    requires Ascending(s) && Ascending(t) && s != []
    requires forall y :: y in s <==> y in t
    ensures t != [] && s[0] == t[0]
  {
    assert s[0] in t;
    assert t[0] in s;
    if s[0] != t[0] {
      var i :| 0 <= i < |s| && s[i] == t[0];
      var j :| 0 <= j < |t| && t[j] == s[0];
      assert CellLess(s[0], t[0]);
      assert CellLess(t[0], s[0]);
      CellLessAsymmetric(s[0], t[0]);
    }
  }

  /** With the heads equal and removed, the tails still have the same members. */
  lemma TailsSameMembers(s: seq<Cell>, t: seq<Cell>)
    requires Ascending(s) && Ascending(t) && s != [] && t != [] && s[0] == t[0]
    requires forall y :: y in s <==> y in t
    ensures forall y :: y in s[1..] <==> y in t[1..]
  {
    forall y ensures y in s[1..] <==> y in t[1..] {
      if y in s[1..] {
        var i :| 0 <= i < |s[1..]| && s[1..][i] == y;
        assert y in t;
        var j :| 0 <= j < |t| && t[j] == y;
        if j == 0 { AscendingDistinct(s, 0, i + 1); }
        assert t[1..][j - 1] == y;
      }
      if y in t[1..] {
        var j :| 0 <= j < |t[1..]| && t[1..][j] == y;
        assert y in s;
        var i :| 0 <= i < |s| && s[i] == y;
        if i == 0 { AscendingDistinct(t, 0, j + 1); }
        assert s[1..][i - 1] == y;
      }
    }
  }

  /** Dropping the head keeps a sequence ascending. */
  lemma AscendingTail(s: seq<Cell>)
    requires Ascending(s) && s != []
    ensures Ascending(s[1..])
  {
    forall i, j | 0 <= i < j < |s| - 1
      ensures CellLess(s[1..][i], s[1..][j])
    {
      assert s[1..][i] == s[i + 1] && s[1..][j] == s[j + 1];
    }
  }

  /** `LabelEncoder.transform` of one value; `None` is an unseen label. */
  function Transform(classes: seq<Cell>, v: Cell): (r: Option<nat>)
    ensures r.Some? <==> v in classes
    ensures r.Some? ==> r.value < |classes| && classes[r.value] == v
  {
    if classes == [] then None
    else if classes[0] == v then Some(0)
    else match Transform(classes[1..], v)
      case None => None
      case Some(k) => Some(k + 1)
  }

  /** Transforming the k-th class gives k: `transform(classes_)` is 0..K-1. */
  lemma TransformClass(classes: seq<Cell>, k: nat)
    requires Ascending(classes) && k < |classes|
    ensures Transform(classes, classes[k]) == Some(k)
  {
    var r := Transform(classes, classes[k]);
    AscendingDistinct(classes, r.value, k);
  }

  /** Codes respect the value order: the encoding is a rank. */
  lemma TransformOrder(classes: seq<Cell>, u: Cell, v: Cell)
    requires Ascending(classes) && u in classes && v in classes
    ensures CellLess(u, v) <==> Transform(classes, u).value < Transform(classes, v).value
  {
    var i, j := Transform(classes, u).value, Transform(classes, v).value;
    if CellLess(u, v) && i >= j {
      if i == j { CellLessIrreflexive(u); }
      else { CellLessAsymmetric(u, v); }
    }
  }

  predicate AllStr(cells: seq<Cell>) {
    forall i :: 0 <= i < |cells| ==> cells[i].Str?
  }

  predicate AllInt(cells: seq<Cell>) {
    forall i :: 0 <= i < |cells| ==> cells[i].Int?
  }

  /** A column is stripped cell by cell only when every cell is text. */
  function StripColumn(cells: seq<Cell>): (r: seq<Cell>)
    ensures |r| == |cells|
    ensures AllStr(cells) ==> AllStr(r) && forall i :: 0 <= i < |r| ==> r[i].text == Strip(cells[i].text)
    ensures !AllStr(cells) ==> r == cells
  {
    if AllStr(cells) then seq(|cells|, i requires 0 <= i < |cells| => Str(Strip(cells[i].text)))
    else cells
  }

  datatype ColumnEncoding = ColumnEncoding(classes: seq<Cell>, codes: seq<nat>)

  /**
   * Fits and applies a `LabelEncoder` to one column. `None` stands for the
   * library's refusal to sort a column that mixes text and numbers.
   */
  function EncodeColumn(cells: seq<Cell>): (r: Option<ColumnEncoding>)
    ensures r.Some? <==> AllStr(cells) || AllInt(cells)
    ensures r.Some? ==> |r.value.codes| == |cells|
  {
    var v := StripColumn(cells);
    if !(AllStr(v) || AllInt(v)) then None
    else
      var classes := SortedDistinct(v);
      Some(ColumnEncoding(classes, seq(|v|, i requires 0 <= i < |v| => Transform(classes, v[i]).value)))
  }

  /**
   * An encoded column's classes are ascending and hold exactly the
   * (stripped) column's values, and `classes_[code]` decodes every cell.
   */
  lemma EncodeColumnSpec(cells: seq<Cell>)
    requires EncodeColumn(cells).Some?
    ensures Ascending(EncodeColumn(cells).value.classes)
    ensures forall y :: y in EncodeColumn(cells).value.classes <==> y in StripColumn(cells)
    ensures forall i :: 0 <= i < |cells| ==>
              EncodeColumn(cells).value.codes[i] < |EncodeColumn(cells).value.classes|
              && EncodeColumn(cells).value.classes[EncodeColumn(cells).value.codes[i]] == StripColumn(cells)[i]
  {
    var v := StripColumn(cells);
    var classes := SortedDistinct(v);
    forall i | 0 <= i < |cells|
      ensures EncodeColumn(cells).value.codes[i] < |classes| && classes[EncodeColumn(cells).value.codes[i]] == v[i]
    {
      assert EncodeColumn(cells).value.codes[i] == Transform(classes, v[i]).value;
    }
  }

  /** Every code 0..K-1 is used by some cell: the codes are dense. */
  lemma EncodeColumnDense(cells: seq<Cell>, k: nat)
    requires EncodeColumn(cells).Some? && k < |EncodeColumn(cells).value.classes|
    ensures exists i :: 0 <= i < |cells| && EncodeColumn(cells).value.codes[i] == k
  {
    var e := EncodeColumn(cells).value;
    var v := StripColumn(cells);
    EncodeColumnSpec(cells);
    assert e.classes[k] in v;
    var i :| 0 <= i < |v| && v[i] == e.classes[k];
    AscendingDistinct(e.classes, e.codes[i], k);
  }

  /**
   * The classes are exactly the ascending enumeration of the column's
   * (stripped) distinct values, whatever algorithm computed them.
   */
  lemma EncodeColumnClasses(cells: seq<Cell>, enumeration: seq<Cell>)
    requires EncodeColumn(cells).Some?
    requires Ascending(enumeration)
    requires forall y :: y in enumeration <==> y in StripColumn(cells)
    ensures EncodeColumn(cells).value.classes == enumeration
  {
    EncodeColumnSpec(cells);
    AscendingUnique(EncodeColumn(cells).value.classes, enumeration);
  }

  /** Two cells of an encoded column get codes in the order of their values. */
  lemma EncodeColumnOrder(cells: seq<Cell>, i: nat, j: nat)
    requires EncodeColumn(cells).Some? && i < |cells| && j < |cells|
    ensures CellLess(StripColumn(cells)[i], StripColumn(cells)[j])
            <==> EncodeColumn(cells).value.codes[i] < EncodeColumn(cells).value.codes[j]
  {
    var e := EncodeColumn(cells).value;
    var v := StripColumn(cells);
    EncodeColumnSpec(cells);
    TransformOrder(e.classes, v[i], v[j]);
    assert e.codes[i] == Transform(e.classes, v[i]).value;
  }

  /**
   * The encoder state after the loop: stripped headers, and per column
   * (in column order) the fitted classes, the encoded cells and the
   * category count handed to the classifier as `min_categories`.
   */
  datatype EncodedTable = EncodedTable(
    names: seq<string>,
    classes: seq<seq<Cell>>,
    codes: seq<seq<nat>>,
    minCategories: seq<nat>)

  /** `t` is what encoding `headers` and `columns` column by column yields. */
  predicate EncodesTo(t: EncodedTable, headers: seq<string>, columns: seq<seq<Cell>>)
    requires |headers| == |columns|
  {
    && |t.names| == |headers| && |t.classes| == |columns|
    && |t.codes| == |columns| && |t.minCategories| == |columns|
    && forall j :: 0 <= j < |columns| ==>
         && t.names[j] == Strip(headers[j])
         && EncodeColumn(columns[j]).Some?
         && t.classes[j] == EncodeColumn(columns[j]).value.classes
         && t.codes[j] == EncodeColumn(columns[j]).value.codes
         && t.minCategories[j] == |t.classes[j]|
  }

  datatype EncodeResult = Encoded(table: EncodedTable) | MixedColumn(column: nat)

  /** One column's step of the loop: strip text cells, fit the encoder, transform. */
  method EncodeOne(cells: seq<Cell>) returns (e: Option<ColumnEncoding>)
    ensures e == EncodeColumn(cells)
  {
    var column := cells;
    if AllStr(column) {
      column := seq(|column|, i requires 0 <= i < |column| => Str(Strip(column[i].text)));
    }
    assert column == StripColumn(cells);
    if !(AllStr(column) || AllInt(column)) {
      return None;
    }
    var classes := SortedDistinct(column);
    var encoded := seq(|column|, i requires 0 <= i < |column| => Transform(classes, column[i]).value);
    e := Some(ColumnEncoding(classes, encoded));
  }

  /**
   * The encoding loop: strips the headers, then for each column strips
   * its cells when they are all text, fits the encoder, replaces the
   * column by its codes and records the encoder and its class count. The
   * first column that mixes text and numbers aborts the run.
   */
  method EncodeTable(headers: seq<string>, columns: seq<seq<Cell>>) returns (r: EncodeResult)
    requires |headers| == |columns|
    ensures r.Encoded? <==> forall j :: 0 <= j < |columns| ==> EncodeColumn(columns[j]).Some?
    ensures r.Encoded? ==> EncodesTo(r.table, headers, columns)
    ensures r.MixedColumn? ==> r.column < |columns| && EncodeColumn(columns[r.column]).None?
                               && forall j :: 0 <= j < r.column ==> EncodeColumn(columns[j]).Some?
  {
    var names := seq(|headers|, i requires 0 <= i < |headers| => Strip(headers[i]));
    ghost var results := seq(|columns|, k requires 0 <= k < |columns| => EncodeColumn(columns[k]));
    var encoders: seq<seq<Cell>> := [];
    var codes: seq<seq<nat>> := [];
    var minCategories: seq<nat> := [];
    var j := 0;
    while j < |columns|
      invariant 0 <= j <= |columns|
      invariant Recorded(results, encoders, codes, minCategories, j)
    {
      var e := EncodeOne(columns[j]);
      assert results[j] == e;
      if e.None? {
        RecordedColumns(columns, results, encoders, codes, minCategories, j);
        return MixedColumn(j);
      }
      RecordedSnoc(results, encoders, codes, minCategories, j, e.value);
      minCategories := minCategories + [|e.value.classes|];
      encoders := encoders + [e.value.classes];
      codes := codes + [e.value.codes];
      j := j + 1;
    }
    RecordedColumns(columns, results, encoders, codes, minCategories, j);
    r := Encoded(EncodedTable(names, encoders, codes, minCategories));
  }

  /** The loop's records of the first j columns agree with their encodings in `results`. */
  ghost predicate Recorded(results: seq<Option<ColumnEncoding>>, encoders: seq<seq<Cell>>,
                           codes: seq<seq<nat>>, minCategories: seq<nat>, j: nat)
  {
    && j <= |results| && |encoders| == |codes| == |minCategories| == j
    && forall k :: 0 <= k < j ==>
         results[k] == Some(ColumnEncoding(encoders[k], codes[k])) && minCategories[k] == |encoders[k]|
  }

  /** Recording one more encoded column keeps every earlier column's record. */
  lemma RecordedSnoc(results: seq<Option<ColumnEncoding>>, encoders: seq<seq<Cell>>, codes: seq<seq<nat>>,
                     minCategories: seq<nat>, j: nat, e: ColumnEncoding)
    requires Recorded(results, encoders, codes, minCategories, j)
    requires j < |results| && results[j] == Some(e)
    ensures Recorded(results, encoders + [e.classes], codes + [e.codes], minCategories + [|e.classes|], j + 1)
  {
    var encoders', codes', minCategories' := encoders + [e.classes], codes + [e.codes], minCategories + [|e.classes|];
    forall k | 0 <= k < j + 1
      ensures results[k] == Some(ColumnEncoding(encoders'[k], codes'[k])) && minCategories'[k] == |encoders'[k]|
    {
      if k < j {
        assert encoders'[k] == encoders[k] && codes'[k] == codes[k] && minCategories'[k] == minCategories[k];
      }
    }
  }

  /** Records that agree with `results` agree with the columns' encodings. */
  lemma RecordedColumns(columns: seq<seq<Cell>>, results: seq<Option<ColumnEncoding>>,
                        encoders: seq<seq<Cell>>, codes: seq<seq<nat>>, minCategories: seq<nat>, j: nat)
    requires |results| == |columns|
    requires forall k :: 0 <= k < |columns| ==> results[k] == EncodeColumn(columns[k])
    requires Recorded(results, encoders, codes, minCategories, j)
    ensures forall k :: 0 <= k < j ==>
              EncodeColumn(columns[k]) == Some(ColumnEncoding(encoders[k], codes[k])) && minCategories[k] == |encoders[k]|
  {
    forall k | 0 <= k < j
      ensures EncodeColumn(columns[k]) == Some(ColumnEncoding(encoders[k], codes[k]))
    {
      assert results[k] == EncodeColumn(columns[k]);
    }
  }

  /** The category counts the classifier receives: all columns but the target. */
  function FeatureMinCategories(t: EncodedTable): (r: seq<nat>)
    requires |t.minCategories| > 0
    ensures |r| == |t.minCategories| - 1
    ensures forall f :: 0 <= f < |r| ==> r[f] == t.minCategories[f]
  {
    t.minCategories[..|t.minCategories| - 1]
  }
}

/**
 * The feature-map file: the target's classes with their codes, the
 * feature count written as `M`, `0`, `M`, then for each feature its
 * index and name, its category count and its categories with their
 * codes. One string per line, without the newline.
 */
module FeatureMapFile {
  import opened Strings
  import opened Encoding

  /** A line `<code> <item>`. */
  function CodeLine(code: nat, item: string): string {
    NatToString(code) + " " + item
  }

  /** The lines listing an encoder's classes next to their codes 0, 1, ... */
  function CodeLines(labels: seq<string>): (r: seq<string>)
    ensures |r| == |labels|
    ensures forall k :: 0 <= k < |r| ==> r[k] == CodeLine(k, labels[k])
  {
    seq(|labels|, k requires 0 <= k < |labels| => CodeLine(k, labels[k]))
  }

  /** What the file lists: the target's labels, the feature names and each feature's labels. */
  datatype FeatureMap = FeatureMap(target: seq<string>, names: seq<string>, labels: seq<seq<string>>)

  predicate WellFormed(fm: FeatureMap) {
    |fm.names| == |fm.labels|
  }

  /** Feature i's block: `i name`, its category count, its code lines. */
  function Block(i: nat, name: string, labels: seq<string>): seq<string> {
    [CodeLine(i, name), NatToString(|labels|)] + CodeLines(labels)
  }

  /** The blocks of features i, i + 1, ... in column order. */
  function Blocks(fm: FeatureMap, i: nat): seq<string>
    requires WellFormed(fm) && i <= |fm.names|
    decreases |fm.names| - i
  {
    if i == |fm.names| then []
    else Block(i, fm.names[i], fm.labels[i]) + Blocks(fm, i + 1)
  }

  /** The whole file. */
  function Lines(fm: FeatureMap): seq<string>
    requires WellFormed(fm)
  {
    var m := NatToString(|fm.names|);
    [NatToString(|fm.target|)] + CodeLines(fm.target) + [m, "0", m] + Blocks(fm, 0)
  }

  /** Σ (2 + K_j) over the features j >= i. */
  function BlockSizes(fm: FeatureMap, i: nat): nat
    requires WellFormed(fm) && i <= |fm.names|
    decreases |fm.names| - i
  {
    if i == |fm.names| then 0 else 2 + |fm.labels[i]| + BlockSizes(fm, i + 1)
  }

  lemma {:induction false} BlocksLength(fm: FeatureMap, i: nat)
    requires WellFormed(fm) && i <= |fm.names|
    ensures |Blocks(fm, i)| == BlockSizes(fm, i)
    decreases |fm.names| - i
  {
    if i < |fm.names| {
      BlocksLength(fm, i + 1);
    }
  }

  /** The file has 4 + C + Σ (2 + K_i) lines. */
  lemma LinesCount(fm: FeatureMap)
    requires WellFormed(fm)
    ensures |Lines(fm)| == 4 + |fm.target| + BlockSizes(fm, 0)
  {
    BlocksLength(fm, 0);
  }

  /** The fixed part of the layout: C, the target's code lines, then M, `0`, M. */
  lemma LinesHeader(fm: FeatureMap)
    requires WellFormed(fm)
    ensures |Lines(fm)| >= 4 + |fm.target|
    ensures Lines(fm)[0] == NatToString(|fm.target|)
    ensures forall k :: 0 <= k < |fm.target| ==> Lines(fm)[1 + k] == CodeLine(k, fm.target[k])
    ensures Lines(fm)[|fm.target| + 1] == NatToString(|fm.names|)
    ensures Lines(fm)[|fm.target| + 2] == "0"
    ensures Lines(fm)[|fm.target| + 3] == NatToString(|fm.names|)
    ensures Lines(fm)[|fm.target| + 4..] == Blocks(fm, 0)
  {
    var m := NatToString(|fm.names|);
    var head := [NatToString(|fm.target|)] + CodeLines(fm.target);
    var mid := [m, "0", m];
    assert Lines(fm) == head + mid + Blocks(fm, 0);
    assert (head + mid)[|fm.target| + 1..] == mid;
    forall k | 0 <= k < |fm.target| ensures Lines(fm)[1 + k] == CodeLine(k, fm.target[k]) {
      assert Lines(fm)[1 + k] == head[1 + k] == CodeLines(fm.target)[k];
    }
  }

  // ---------------------------------------------------------------- reading

  /** Reads `<code> <item>`, splitting at the first space, when the code is `code`. */
  function ParseCodeLine(line: string, code: nat): Option<string> {
    match FirstIndex(line, ' ')
    case None => None
    case Some(i) => if ParseNat(line[..i]) == Some(code) then Some(line[i + 1..]) else None
  }

  lemma CodeLineRoundTrip(code: nat, item: string)
    ensures ParseCodeLine(CodeLine(code, item), code) == Some(item)
  {
    var d := NatToString(code);
    var line := CodeLine(code, item);
    assert line[|d|] == ' ';
    assert forall k :: 0 <= k < |d| ==> line[k] == d[k] && IsDigit(d[k]);
    FirstIndexAt(line, ' ', |d|);
    assert line[..|d|] == d;
    assert line[|d| + 1..] == item;
    ParseNatToString(code);
  }

  /** Reads lines `0 l0`, `1 l1`, ... back into their labels. */
  function ParseCodeLines(lines: seq<string>): (r: Option<seq<string>>)
    ensures r.Some? ==> |r.value| == |lines|
  {
    if forall k :: 0 <= k < |lines| ==> ParseCodeLine(lines[k], k).Some? then
      Some(seq(|lines|, k requires 0 <= k < |lines| => ParseCodeLine(lines[k], k).value))
    else None
  }

  lemma CodeLinesRoundTrip(labels: seq<string>)
    ensures ParseCodeLines(CodeLines(labels)) == Some(labels)
  {
    var lines := CodeLines(labels);
    forall k | 0 <= k < |lines| ensures ParseCodeLine(lines[k], k) == Some(labels[k]) {
      CodeLineRoundTrip(k, labels[k]);
    }
    assert ParseCodeLines(lines).value == labels;
  }

  /** Reads n feature blocks numbered from i, which must use up all the lines. */
  function ParseBlocks(lines: seq<string>, i: nat, n: nat): Option<(seq<string>, seq<seq<string>>)>
    decreases n
  {
    if n == 0 then
      if lines == [] then Some(([], [])) else None
    else if |lines| < 2 then None
    else
      var name := ParseCodeLine(lines[0], i);
      var k := ParseNat(lines[1]);
      if name.None? || k.None? || |lines| < 2 + k.value then None
      else
        var labels := ParseCodeLines(lines[2..2 + k.value]);
        var rest := ParseBlocks(lines[2 + k.value..], i + 1, n - 1);
        if labels.None? || rest.None? then None
        else Some(([name.value] + rest.value.0, [labels.value] + rest.value.1))
  }

  /** Reads a feature-map file. */
  function ParseFeatureMap(lines: seq<string>): Option<FeatureMap> {
    if lines == [] || ParseNat(lines[0]).None? then None
    else
      var c := ParseNat(lines[0]).value;
      if |lines| < c + 4 then None
      else
        var target := ParseCodeLines(lines[1..c + 1]);
        var m := ParseNat(lines[c + 1]);
        if target.None? || m.None? || lines[c + 2] != "0" || ParseNat(lines[c + 3]) != m then None
        else
          var features := ParseBlocks(lines[c + 4..], 0, m.value);
          if features.None? then None
          else Some(FeatureMap(target.value, features.value.0, features.value.1))
  }

  /**
   * A block followed by lines that read as n - 1 more features reads as n
   * features, its own name and labels first.
   */
  lemma ParseBlocksCons(lines: seq<string>, i: nat, n: nat, name: string, labels: seq<string>,
                        rest: seq<string>, names: seq<string>, labelss: seq<seq<string>>)
    requires n > 0 && lines == Block(i, name, labels) + rest
    requires ParseBlocks(rest, i + 1, n - 1) == Some((names, labelss))
    ensures ParseBlocks(lines, i, n) == Some(([name] + names, [labels] + labelss))
  {
    var k := |labels|;
    CodeLineRoundTrip(i, name);
    ParseNatToString(k);
    CodeLinesRoundTrip(labels);
    assert lines[0] == CodeLine(i, name) && lines[1] == NatToString(k);
    assert lines[2..2 + k] == CodeLines(labels);
    assert lines[2 + k..] == rest;
  }

  /** Feature i's block comes first in the blocks from i. */
  lemma BlocksCons(fm: FeatureMap, i: nat)
    requires WellFormed(fm) && i < |fm.names|
    ensures Blocks(fm, i) == Block(i, fm.names[i], fm.labels[i]) + Blocks(fm, i + 1)
    ensures fm.names[i..] == [fm.names[i]] + fm.names[i + 1..]
    ensures fm.labels[i..] == [fm.labels[i]] + fm.labels[i + 1..]
  {
  }

  /** The blocks from feature i read back as the features from i on. */
  ghost predicate ReadsBackFrom(fm: FeatureMap, i: nat)
    requires WellFormed(fm) && i <= |fm.names|
  {
    ParseBlocks(Blocks(fm, i), i, |fm.names| - i) == Some((fm.names[i..], fm.labels[i..]))
  }

  /** If the blocks after feature i read back, so do the blocks from feature i. */
  lemma BlocksStep(fm: FeatureMap, i: nat)
    requires WellFormed(fm) && i < |fm.names|
    requires ReadsBackFrom(fm, i + 1)
    ensures ReadsBackFrom(fm, i)
  {
    BlocksCons(fm, i);
    ParseBlocksCons(Blocks(fm, i), i, |fm.names| - i, fm.names[i], fm.labels[i],
                    Blocks(fm, i + 1), fm.names[i + 1..], fm.labels[i + 1..]);
  }

  lemma {:induction false} BlocksRoundTrip(fm: FeatureMap, i: nat)
    requires WellFormed(fm) && i <= |fm.names|
    ensures ReadsBackFrom(fm, i)
    decreases |fm.names| - i
  {
    if i < |fm.names| {
      BlocksRoundTrip(fm, i + 1);
      BlocksStep(fm, i);
    } else {
      BlocksEnd(fm, i);
    }
  }

  /** No features left: nothing to read, and nothing remains. */
  lemma BlocksEnd(fm: FeatureMap, i: nat)
    requires WellFormed(fm) && i == |fm.names|
    ensures ReadsBackFrom(fm, i)
  {
    assert fm.names[i..] == [] && fm.labels[i..] == [];
  }

  /** Reading the written file gives back exactly what was written. */
  lemma FeatureMapRoundTrip(fm: FeatureMap)
    requires WellFormed(fm)
    ensures ParseFeatureMap(Lines(fm)) == Some(fm)
  {
    var lines := Lines(fm);
    var c := |fm.target|;
    LinesHeader(fm);
    ParseNatToString(c);
    ParseNatToString(|fm.names|);
    assert lines[1..c + 1] == CodeLines(fm.target);
    CodeLinesRoundTrip(fm.target);
    BlocksRoundTrip(fm, 0);
    assert fm.names[0..] == fm.names && fm.labels[0..] == fm.labels;
  }

  // ---------------------------------------------------------------- writing

  /** How `str()` prints an encoder's classes. */
  function Labels(classes: seq<Cell>): (r: seq<string>)
    ensures |r| == |classes|
    ensures forall k :: 0 <= k < |r| ==> r[k] == CellToString(classes[k])
  {
    seq(|classes|, k requires 0 <= k < |classes| => CellToString(classes[k]))
  }

  /** The feature map of an encoded table: the last column is the target, the others are features. */
  function MapOf(t: EncodedTable): (fm: FeatureMap)
    requires |t.names| == |t.classes| > 0
    ensures WellFormed(fm)
    ensures |fm.names| == |t.names| - 1
    ensures fm.target == Labels(t.classes[|t.classes| - 1])
    ensures forall i :: 0 <= i < |fm.names| ==>
              fm.names[i] == t.names[i] && fm.labels[i] == Labels(t.classes[i])
  {
    var n := |t.classes| - 1;
    FeatureMap(Labels(t.classes[n]), t.names[..n],
               seq(n, i requires 0 <= i < n => Labels(t.classes[i])))
  }

  /**
   * Appends the code lines of one encoder, writing next to each class the
   * code `transform` gives it.
   */
  method WriteCodeLines(lines: seq<string>, classes: seq<Cell>) returns (out: seq<string>)
    requires Ascending(classes)
    ensures out == lines + CodeLines(Labels(classes))
  {
    out := lines;
    var k := 0;
    while k < |classes|
      invariant 0 <= k <= |classes|
      invariant out == lines + CodeLines(Labels(classes))[..k]
    {
      TransformClass(classes, k);
      var code := Transform(classes, classes[k]).value;
      out := out + [NatToString(code) + " " + CellToString(classes[k])];
      assert CodeLines(Labels(classes))[..k + 1] == CodeLines(Labels(classes))[..k] + [CodeLine(k, CellToString(classes[k]))];
      k := k + 1;
    }
    assert CodeLines(Labels(classes))[..k] == CodeLines(Labels(classes));
  }

  /**
   * The feature-map writer: the target's class count and code lines, the
   * feature count, the reserved `0`, the feature count again, then one
   * block per feature column.
   */
  method WriteFeatureMap(t: EncodedTable) returns (lines: seq<string>)
    requires |t.names| == |t.classes| > 0
    requires forall j :: 0 <= j < |t.classes| ==> Ascending(t.classes[j])
    ensures lines == Lines(MapOf(t))
  {
    var n := |t.classes| - 1;
    var target := t.classes[n];
    lines := WriteCodeLines([NatToString(|target|)], target);
    lines := lines + [NatToString(n), "0", NatToString(n)];
    LinesOfTable(t);
    var i := 0;
    while i < n
      invariant 0 <= i <= n
      invariant lines + Blocks(MapOf(t), i) == Lines(MapOf(t))
    {
      var classes := t.classes[i];
      ghost var before := lines;
      lines := lines + [CodeLine(i, t.names[i]), NatToString(|classes|)];
      lines := WriteCodeLines(lines, classes);
      WriteStep(t, i, before, lines);
      i := i + 1;
    }
    assert Blocks(MapOf(t), n) == [];
  }

  /** The head of the feature map of an encoded table, in front of the feature blocks. */
  lemma LinesOfTable(t: EncodedTable)
    requires |t.names| == |t.classes| > 0
    ensures var n := |t.classes| - 1;
            Lines(MapOf(t)) == [NatToString(|t.classes[n]|)] + CodeLines(Labels(t.classes[n]))
                               + [NatToString(n), "0", NatToString(n)] + Blocks(MapOf(t), 0)
  {
  }

  /** Printing feature i's block moves the writer on to feature i + 1. */
  lemma WriteStep(t: EncodedTable, i: nat, before: seq<string>, after: seq<string>)
    requires |t.names| == |t.classes| > 0 && i < |t.classes| - 1
    requires before + Blocks(MapOf(t), i) == Lines(MapOf(t))
    requires after == before + [CodeLine(i, t.names[i]), NatToString(|t.classes[i]|)]
                      + CodeLines(Labels(t.classes[i]))
    ensures after + Blocks(MapOf(t), i + 1) == Lines(MapOf(t))
  {
    BlockOfColumn(t, i);
    MoveBlockToPrefix(before, [CodeLine(i, t.names[i]), NatToString(|t.classes[i]|)], CodeLines(Labels(t.classes[i])),
                Blocks(MapOf(t), i), Blocks(MapOf(t), i + 1), Lines(MapOf(t)));
  }

  /** Moving a block from the front of the rest to the end of the prefix keeps the whole. */
  lemma MoveBlockToPrefix(before: seq<string>, head: seq<string>, tail: seq<string>,
                    blocks: seq<string>, rest: seq<string>, whole: seq<string>)
    requires before + blocks == whole
    requires blocks == head + tail + rest
    ensures before + head + tail + rest == whole
  {
    assert before + (head + tail + rest) == before + head + tail + rest;
  }

  /** Feature i's block, as the writer prints it from column i's encoder. */
  lemma BlockOfColumn(t: EncodedTable, i: nat)
    requires |t.names| == |t.classes| > 0 && i < |t.classes| - 1
    ensures Blocks(MapOf(t), i)
            == [CodeLine(i, t.names[i]), NatToString(|t.classes[i]|)] + CodeLines(Labels(t.classes[i]))
               + Blocks(MapOf(t), i + 1)
  {
  }
}

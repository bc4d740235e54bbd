/**
 * The classifier parameter file: the class count, one prior per line,
 * the feature count, then per feature its category count and one line
 * per class holding that class's probabilities, each followed by a
 * space. How a probability is printed is a parameter `show`, applied to
 * the stored log-probability.
 */
module ClassifierFile {
  import opened Strings
  import opened Predict

  /** One table row: every value printed and followed by a space. */
  function RowLine(vals: seq<real>, show: real -> string): string
    decreases |vals|
  {
    if vals == [] then "" else show(vals[0]) + " " + RowLine(vals[1..], show)
  }

  /** Printing one more value extends the row at its end. */
  lemma {:induction false} RowLineSnoc(vals: seq<real>, v: real, show: real -> string)
    ensures RowLine(vals + [v], show) == RowLine(vals, show) + show(v) + " "
    decreases |vals|
  {
    if vals != [] {
      RowLineSnoc(vals[1..], v, show);
      assert (vals + [v])[1..] == vals[1..] + [v];
    } else {
      assert RowLine([v], show) == show(v) + " " + RowLine([], show);
    }
  }

  predicate NoSpace(s: string) {
    forall k :: 0 <= k < |s| ==> s[k] != ' '
  }

  /** Splits a row of space-terminated fields; text after the last space is rejected. */
  function ParseRow(s: string): Option<seq<string>>
    decreases |s|
  {
    if s == [] then Some([])
    else match FirstIndex(s, ' ')
      case None => None
      case Some(i) =>
        match ParseRow(s[i + 1..])
        case None => None
        case Some(rest) => Some([s[..i]] + rest)
  }

  /** A row reads back as its printed values when no printed value holds a space. */
  lemma {:induction false} RowLineRoundTrip(vals: seq<real>, show: real -> string)
    requires forall k :: 0 <= k < |vals| ==> NoSpace(show(vals[k]))
    ensures ParseRow(RowLine(vals, show)) == Some(seq(|vals|, k requires 0 <= k < |vals| => show(vals[k])))
    decreases |vals|
  {
    if vals != [] {
      var head := show(vals[0]);
      var line := RowLine(vals, show);
      assert NoSpace(show(vals[0]));
      assert line[|head|] == ' ';
      assert forall k :: 0 <= k < |head| ==> line[k] == head[k];
      FirstIndexAt(line, ' ', |head|);
      assert line[..|head|] == head;
      assert line[|head| + 1..] == RowLine(vals[1..], show);
      assert forall k :: 0 <= k < |vals[1..]| ==> NoSpace(show(vals[1..][k])) by {
        forall k | 0 <= k < |vals[1..]| ensures NoSpace(show(vals[1..][k])) {
          assert vals[1..][k] == vals[k + 1];
        }
      }
      RowLineRoundTrip(vals[1..], show);
      var tail := seq(|vals[1..]|, k requires 0 <= k < |vals[1..]| => show(vals[1..][k]));
      assert ParseRow(line[|head| + 1..]) == Some(tail);
      assert ParseRow(line) == Some([head] + tail);
      assert seq(|vals|, k requires 0 <= k < |vals| => show(vals[k])) == [head] + tail;
    } else {
      assert RowLine(vals, show) == "" && ParseRow("") == Some([]);
      assert seq(|vals|, k requires 0 <= k < |vals| => show(vals[k])) == [];
    }
  }

  /** Feature f's block: K_f, then one row per class. */
  function TableBlock(m: LogModel, f: nat, show: real -> string): (r: seq<string>)
    requires WellShaped(m) && f < |m.logTables|
    ensures |r| == 1 + |m.logPrior|
  {
    var C := |m.logPrior|;
    [NatToString(Width(m, f))] + seq(C, c requires 0 <= c < C => RowLine(m.logTables[f][c], show))
  }

  /** The blocks of features f, f + 1, ... */
  function TableBlocks(m: LogModel, f: nat, show: real -> string): seq<string>
    requires WellShaped(m) && f <= |m.logTables|
    decreases |m.logTables| - f
  {
    if f == |m.logTables| then [] else TableBlock(m, f, show) + TableBlocks(m, f + 1, show)
  }

  /** The lines listing the class priors. */
  function PriorLines(m: LogModel, show: real -> string): (r: seq<string>)
    ensures |r| == |m.logPrior|
    ensures forall c :: 0 <= c < |r| ==> r[c] == show(m.logPrior[c])
  {
    seq(|m.logPrior|, c requires 0 <= c < |m.logPrior| => show(m.logPrior[c]))
  }

  /** The whole file. */
  function Lines(m: LogModel, show: real -> string): seq<string>
    requires WellShaped(m)
  {
    [NatToString(|m.logPrior|)] + PriorLines(m, show) + [NatToString(|m.logTables|)]
      + TableBlocks(m, 0, show)
  }

  lemma {:induction false} TableBlocksLength(m: LogModel, f: nat, show: real -> string)
    requires WellShaped(m) && f <= |m.logTables|
    ensures |TableBlocks(m, f, show)| == (|m.logTables| - f) * (1 + |m.logPrior|)
    decreases |m.logTables| - f
  {
    if f < |m.logTables| {
      TableBlocksLength(m, f + 1, show);
      var n, w := |m.logTables| - f, 1 + |m.logPrior|;
      assert n * w == w + (n - 1) * w;
    }
  }

  /** The file has 2 + C + M (1 + C) lines. */
  lemma LinesCount(m: LogModel, show: real -> string)
    requires WellShaped(m)
    ensures |Lines(m, show)| == 2 + |m.logPrior| + |m.logTables| * (1 + |m.logPrior|)
  {
    TableBlocksLength(m, 0, show);
  }

  /** n blocks of w lines, counted without multiplying. */
  function Offset(n: nat, w: nat): nat {
    if n == 0 then 0 else w + Offset(n - 1, w)
  }

  lemma {:induction false} OffsetIsProduct(n: nat, w: nat)
    ensures Offset(n, w) == n * w
  {
    if n > 0 {
      OffsetIsProduct(n - 1, w);
      assert n * w == w + (n - 1) * w;
    }
  }

  /** Line j of feature g's block sits Offset(g - f) + j lines into the blocks from f. */
  lemma {:induction false} TableBlocksAt(m: LogModel, f: nat, g: nat, j: nat, show: real -> string)
    requires WellShaped(m) && f <= g < |m.logTables| && j < 1 + |m.logPrior|
    ensures Offset(g - f, 1 + |m.logPrior|) + j < |TableBlocks(m, f, show)|
    ensures TableBlocks(m, f, show)[Offset(g - f, 1 + |m.logPrior|) + j] == TableBlock(m, g, show)[j]
    decreases g - f
  {
    if f < g {
      TableBlocksAt(m, f + 1, g, j, show);
      assert g - f - 1 == g - (f + 1);
    }
  }

  /** The file's fixed head: C, then prior c on line 1 + c, then M on line C + 1. */
  lemma LinesHead(m: LogModel, show: real -> string, c: nat)
    requires WellShaped(m) && c < |m.logPrior|
    ensures |Lines(m, show)| == |m.logPrior| + 2 + |TableBlocks(m, 0, show)|
    ensures Lines(m, show)[0] == NatToString(|m.logPrior|)
    ensures Lines(m, show)[1 + c] == show(m.logPrior[c])
    ensures Lines(m, show)[|m.logPrior| + 1] == NatToString(|m.logTables|)
  {
    var head := [NatToString(|m.logPrior|)] + PriorLines(m, show) + [NatToString(|m.logTables|)];
    assert Lines(m, show) == head + TableBlocks(m, 0, show);
    assert head[1 + c] == PriorLines(m, show)[c];
  }

  /** After the head, line C + 2 + x is line x of the feature blocks. */
  lemma LinesBlocksAt(m: LogModel, show: real -> string, x: nat)
    requires WellShaped(m) && x < |TableBlocks(m, 0, show)|
    ensures |m.logPrior| + 2 + x < |Lines(m, show)|
    ensures Lines(m, show)[|m.logPrior| + 2 + x] == TableBlocks(m, 0, show)[x]
  {
    var head := [NatToString(|m.logPrior|)] + PriorLines(m, show) + [NatToString(|m.logTables|)];
    assert Lines(m, show) == head + TableBlocks(m, 0, show);
  }

  /** Line j of feature g's block sits on line C + 2 + g (1 + C) + j of the file. */
  lemma BlockLine(m: LogModel, show: real -> string, g: nat, j: nat)
    requires WellShaped(m) && g < |m.logTables| && j < 1 + |m.logPrior|
    ensures |m.logPrior| + 2 + Offset(g, 1 + |m.logPrior|) + j < |Lines(m, show)|
    ensures Lines(m, show)[|m.logPrior| + 2 + Offset(g, 1 + |m.logPrior|) + j] == TableBlock(m, g, show)[j]
  {
    TableBlocksAt(m, 0, g, j, show);
    assert g - 0 == g;
    LinesBlocksAt(m, show, Offset(g, 1 + |m.logPrior|) + j);
  }

  /**
   * Where everything sits: C on line 0, prior c on line 1 + c, M on line
   * C + 1; feature g's block starts on line C + 2 + g (1 + C) with K_g,
   * and class c's row of that table follows it on line c + 1 of the block.
   */
  lemma LinesAt(m: LogModel, show: real -> string, g: nat, c: nat)
    requires WellShaped(m) && g < |m.logTables| && c < |m.logPrior|
    ensures |Lines(m, show)| > |m.logPrior| + 2 + Offset(g, 1 + |m.logPrior|) + (1 + c)
    ensures Lines(m, show)[0] == NatToString(|m.logPrior|)
    ensures Lines(m, show)[1 + c] == show(m.logPrior[c])
    ensures Lines(m, show)[|m.logPrior| + 1] == NatToString(|m.logTables|)
    ensures Lines(m, show)[|m.logPrior| + 2 + Offset(g, 1 + |m.logPrior|)] == NatToString(Width(m, g))
    ensures Lines(m, show)[|m.logPrior| + 2 + Offset(g, 1 + |m.logPrior|) + (1 + c)]
            == RowLine(m.logTables[g][c], show)
    ensures Offset(g, 1 + |m.logPrior|) == g * (1 + |m.logPrior|)
  {
    OffsetIsProduct(g, 1 + |m.logPrior|);
    LinesHead(m, show, c);
    BlockLine(m, show, g, 0);
    BlockLine(m, show, g, 1 + c);
    TableBlockAt(m, g, c, show);
  }

  /** A feature's block opens with its width, then holds class c's row on line 1 + c. */
  lemma TableBlockAt(m: LogModel, g: nat, c: nat, show: real -> string)
    requires WellShaped(m) && g < |m.logTables| && c < |m.logPrior|
    ensures TableBlock(m, g, show)[0] == NatToString(Width(m, g))
    ensures TableBlock(m, g, show)[1 + c] == RowLine(m.logTables[g][c], show)
  {
  }

  // ---------------------------------------------------------------- writing

  /** Prints one row, value by value. */
  method WriteRow(vals: seq<real>, show: real -> string) returns (row: string)
    ensures row == RowLine(vals, show)
  {
    row := "";
    var k := 0;
    while k < |vals|
      invariant 0 <= k <= |vals|
      invariant row == RowLine(vals[..k], show)
    {
      RowLineSnoc(vals[..k], vals[k], show);
      assert vals[..k + 1] == vals[..k] + [vals[k]];
      row := row + show(vals[k]) + " ";
      k := k + 1;
    }
    assert vals[..k] == vals;
  }

  /** Prints feature f's block: its category count, then one row per class. */
  method WriteBlock(m: LogModel, f: nat, show: real -> string) returns (block: seq<string>)
    requires WellShaped(m) && f < |m.logTables|
    ensures block == TableBlock(m, f, show)
  {
    var C := |m.logPrior|;
    ghost var spec := TableBlock(m, f, show);
    block := [NatToString(|m.logTables[f][0]|)];
    var r := 0;
    while r < C
      invariant 0 <= r <= C
      invariant block == spec[..1 + r]
    {
      var row := WriteRow(m.logTables[f][r], show);
      assert spec[..1 + r + 1] == spec[..1 + r] + [row];
      block := block + [row];
      r := r + 1;
    }
    assert spec[..1 + C] == spec;
  }

  /**
   * The classifier-file writer: the class count, the priors, the feature
   * count, then each feature's category count and its per-class rows.
   */
  method WriteClassifier(m: LogModel, show: real -> string) returns (lines: seq<string>)
    requires WellShaped(m)
    ensures lines == Lines(m, show)
  {
    var C := |m.logPrior|;
    lines := [NatToString(C)];
    var c := 0;
    while c < C
      invariant 0 <= c <= C
      invariant lines == [NatToString(C)] + PriorLines(m, show)[..c]
    {
      assert PriorLines(m, show)[..c + 1] == PriorLines(m, show)[..c] + [show(m.logPrior[c])];
      lines := lines + [show(m.logPrior[c])];
      c := c + 1;
    }
    assert PriorLines(m, show)[..c] == PriorLines(m, show);
    lines := lines + [NatToString(|m.logTables|)];
    var f := 0;
    while f < |m.logTables|
      invariant 0 <= f <= |m.logTables|
      invariant lines + TableBlocks(m, f, show) == Lines(m, show)
    {
      var block := WriteBlock(m, f, show);
      assert TableBlocks(m, f, show) == block + TableBlocks(m, f + 1, show);
      lines := lines + block;
      f := f + 1;
    }
    assert TableBlocks(m, f, show) == [];
  }
}

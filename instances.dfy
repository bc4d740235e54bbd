/**
 * The instance dump: one file per encoded row, named after the last
 * non-empty `/`-separated segment of the output directory and the row's
 * 1-based number, holding the row's length, its codes and the class the
 * classifier predicts for it.
 */
module InstanceDump {
  import opened Strings

  /** Python's `s.split(sep)` with a one-character separator. */
  function Split(s: string, sep: char): (r: seq<string>)
    ensures |r| >= 1
    ensures forall k :: 0 <= k < |r| ==> sep !in r[k]
    decreases |s|
  {
    FirstIndexSpec(s, sep);
    match FirstIndex(s, sep)
    case None => [s]
    case Some(i) => [s[..i]] + Split(s[i + 1..], sep)
  }

  /** `sep.join(parts)`. */
  function Join(parts: seq<string>, sep: char): string
    requires |parts| >= 1
    decreases |parts|
  {
    if |parts| == 1 then parts[0] else parts[0] + [sep] + Join(parts[1..], sep)
  }

  /** Splitting loses nothing: joining the pieces gives the string back. */
  lemma {:induction false} SplitJoin(s: string, sep: char)
    ensures Join(Split(s, sep), sep) == s
    decreases |s|
  {
    FirstIndexSpec(s, sep);
    match FirstIndex(s, sep)
    case None =>
    case Some(i) =>
      SplitJoin(s[i + 1..], sep);
      assert s == s[..i] + [sep] + s[i + 1..];
  }

  /** Every character of a joined string comes from a piece or is the separator. */
  lemma {:induction false} JoinChars(parts: seq<string>, sep: char, c: char)
    requires |parts| >= 1 && c != sep && c in Join(parts, sep)
    ensures exists k :: 0 <= k < |parts| && c in parts[k]
    decreases |parts|
  {
    if |parts| > 1 {
      if c !in parts[0] {
        JoinChars(parts[1..], sep, c);
        var k :| 0 <= k < |parts[1..]| && c in parts[1..][k];
        assert c in parts[k + 1];
      }
    }
  }

  /** `next(s for s in reversed(parts) if s)`, or None where Python raises StopIteration. */
  function LastNonEmpty(parts: seq<string>): (r: Option<string>)
    ensures r.Some? <==> exists k :: 0 <= k < |parts| && parts[k] != ""
    ensures r.Some? ==> exists k :: 0 <= k < |parts| && parts[k] == r.value && r.value != ""
                          && forall j :: k < j < |parts| ==> parts[j] == ""
  {
    if parts == [] then None
    else if parts[|parts| - 1] != "" then Some(parts[|parts| - 1])
    else
      var r := LastNonEmpty(parts[..|parts| - 1]);
      assert forall k :: 0 <= k < |parts| - 1 ==> parts[..|parts| - 1][k] == parts[k];
      r
  }

  /** The `<name>` of the dump files. */
  function DumpName(dir: string): Option<string> {
    LastNonEmpty(Split(dir, '/'))
  }

  /**
   * A name exists exactly when the directory has a character other than
   * `/`; it is then non-empty and free of `/`.
   */
  lemma DumpNameExists(dir: string)
    ensures DumpName(dir).Some? <==> exists k :: 0 <= k < |dir| && dir[k] != '/'
    ensures DumpName(dir).Some? ==> DumpName(dir).value != "" && '/' !in DumpName(dir).value
  {
    var parts := Split(dir, '/');
    if k :| 0 <= k < |dir| && dir[k] != '/' {
      SplitJoin(dir, '/');
      JoinChars(parts, '/', dir[k]);
      var j :| 0 <= j < |parts| && dir[k] in parts[j];
      assert parts[j] != "";
    }
    if DumpName(dir).Some? {
      var j :| 0 <= j < |parts| && parts[j] != "";
      assert parts[j][0] in Join(parts, '/') by {
        JoinHas(parts, '/', j);
      }
      SplitJoin(dir, '/');
      var k :| 0 <= k < |dir| && dir[k] == parts[j][0];
      assert dir[k] != '/';
    }
  }

  /** Every character of every piece occurs in the joined string. */
  lemma {:induction false} JoinHas(parts: seq<string>, sep: char, j: nat)
    requires j < |parts| && parts[j] != []
    ensures parts[j][0] in Join(parts, sep)
    decreases |parts|
  {
    if j > 0 {
      JoinHas(parts[1..], sep, j - 1);
      assert parts[1..][j - 1] == parts[j];
    } else if |parts| > 1 {
      assert Join(parts, sep)[0] == parts[0][0];
    }
  }

  /** `os.path.join(dir, file)` for a relative `file`. */
  function JoinPath(dir: string, file: string): (r: string)
    ensures |r| >= |dir| + |file| && r[..|dir|] == dir
    ensures r[|r| - |file|..] == file
    ensures dir == [] || dir[|dir| - 1] == '/' ==> |r| == |dir| + |file|
    ensures dir != [] && dir[|dir| - 1] != '/' ==> |r| == |dir| + 1 + |file| && r[|dir|] == '/'
  {
    if dir == [] || dir[|dir| - 1] == '/' then dir + file else dir + "/" + file
  }

  /** The file name of row i (0-based): `<name>.<i+1>.txt`. */
  function InstanceFileName(name: string, i: nat): string {
    name + "." + NatToString(i + 1) + ".txt"
  }

  /** Distinct rows get distinct paths. */
  lemma InstancePathsDistinct(dir: string, name: string, i: nat, j: nat)
    requires i != j
    ensures JoinPath(dir, InstanceFileName(name, i)) != JoinPath(dir, InstanceFileName(name, j))
  {
    var a, b := NatToString(i + 1), NatToString(j + 1);
    var fa, fb := InstanceFileName(name, i), InstanceFileName(name, j);
    if JoinPath(dir, fa) == JoinPath(dir, fb) {
      assert |fa| == |fb|;
      assert fa == fb;
      assert |a| == |b|;
      assert fa[|name| + 1..|name| + 1 + |a|] == a;
      assert fb[|name| + 1..|name| + 1 + |b|] == b;
      NatToStringInjective(i + 1, j + 1);
      assert false;
    }
  }

  /** The lines printing a row's codes, one per line. */
  function ValueLines(row: seq<nat>): (r: seq<string>)
    ensures |r| == |row|
  {
    seq(|row|, k requires 0 <= k < |row| => NatToString(row[k]))
  }

  /** A dump file: the row's length, one code per line, then the predicted class. */
  function InstanceLines(row: seq<nat>, predicted: nat): (r: seq<string>)
    ensures |r| == |row| + 2
  {
    [NatToString(|row|)] + ValueLines(row) + [NatToString(predicted)]
  }

  /** Reads lines that each hold one number. */
  function ParseCodes(lines: seq<string>): (r: Option<seq<nat>>)
    ensures r.Some? ==> |r.value| == |lines|
  {
    if forall k :: 0 <= k < |lines| ==> ParseNat(lines[k]).Some? then
      Some(seq(|lines|, k requires 0 <= k < |lines| => ParseNat(lines[k]).value))
    else None
  }

  lemma CodesRoundTrip(row: seq<nat>)
    ensures ParseCodes(ValueLines(row)) == Some(row)
  {
    var lines := ValueLines(row);
    forall k | 0 <= k < |row| ensures ParseNat(lines[k]) == Some(row[k]) {
      ParseNatToString(row[k]);
    }
    assert ParseCodes(lines).value == row;
  }

  /** Reads a dump file back into the row and the predicted class. */
  function ParseInstance(lines: seq<string>): Option<(seq<nat>, nat)> {
    if lines == [] || ParseNat(lines[0]).None? then None
    else
      var n := ParseNat(lines[0]).value;
      if |lines| != n + 2 then None
      else
        var codes := ParseCodes(lines[1..n + 1]);
        var predicted := ParseNat(lines[n + 1]);
        if codes.None? || predicted.None? then None else Some((codes.value, predicted.value))
  }

  /** Reading a dump file gives back the row and the class written into it. */
  lemma InstanceRoundTrip(row: seq<nat>, predicted: nat)
    ensures ParseInstance(InstanceLines(row, predicted)) == Some((row, predicted))
  {
    var lines := InstanceLines(row, predicted);
    ParseNatToString(|row|);
    ParseNatToString(predicted);
    assert lines[1..|row| + 1] == ValueLines(row);
    CodesRoundTrip(row);
  }

  datatype DumpFile = DumpFile(path: string, lines: seq<string>)

  /**
   * The dump loop: for each row in order, the path
   * `join(dir, name.<i+1>.txt)` and the row's lines, with the class
   * `predict` gives the row. None when `dir` has no non-empty segment.
   */
  method DumpInstances(dir: string, X: seq<seq<nat>>, predict: seq<nat> -> nat)
    returns (r: Option<seq<DumpFile>>)
    ensures r.Some? <==> DumpName(dir).Some?
    ensures r.Some? ==> |r.value| == |X|
    ensures r.Some? ==> forall i :: 0 <= i < |X| ==>
              r.value[i] == DumpFile(JoinPath(dir, InstanceFileName(DumpName(dir).value, i)),
                                     InstanceLines(X[i], predict(X[i])))
  {
    var name := DumpName(dir);
    if name.None? {
      return None;
    }
    var files: seq<DumpFile> := [];
    var i := 0;
    while i < |X|
      invariant 0 <= i <= |X| && |files| == i
      invariant forall j :: 0 <= j < i ==>
                  files[j] == DumpFile(JoinPath(dir, InstanceFileName(name.value, j)),
                                       InstanceLines(X[j], predict(X[j])))
    {
      var path := JoinPath(dir, name.value + "." + NatToString(i + 1) + ".txt");
      assert name.value + "." + NatToString(i + 1) + ".txt" == InstanceFileName(name.value, i);
      var lines := WriteInstance(X[i], predict(X[i]));
      files := files + [DumpFile(path, lines)];
      i := i + 1;
    }
    r := Some(files);
  }

  /** Prints one row's dump file: its length, each code, then the predicted class. */
  method WriteInstance(row: seq<nat>, predicted: nat) returns (lines: seq<string>)
    ensures lines == InstanceLines(row, predicted)
  {
    lines := [NatToString(|row|)];
    var k := 0;
    while k < |row|
      invariant 0 <= k <= |row|
      invariant lines == [NatToString(|row|)] + ValueLines(row)[..k]
    {
      assert ValueLines(row)[..k + 1] == ValueLines(row)[..k] + [NatToString(row[k])];
      lines := lines + [NatToString(row[k])];
      k := k + 1;
    }
    assert ValueLines(row)[..k] == ValueLines(row);
    lines := lines + [NatToString(predicted)];
  }
}

/** The PATH command file: one path on each line, whatever the line breaks (`parse_paths` in
    crates/automata-ci-actions-runtime/src/file_command.rs). Text is one character for each byte. */
module PathFile {

  import opened Text
  import TextLines
  import opened EnvFile

  predicate IsBreak(c: char)
  {
    c == '\r' || c == '\n'
  }

  predicate Unbroken(s: string)
  {
    forall i :: 0 <= i < |s| ==> !IsBreak(s[i])
  }

  function FirstBreak(s: string): (k: nat)
    ensures k <= |s| && Unbroken(s[..k]) && (k < |s| ==> IsBreak(s[k]))
  {
    if s == "" || IsBreak(s[0]) then 0 else
      var k := FirstBreak(s[1..]);
      assert s[..k + 1] == [s[0]] + s[1..][..k];
      k + 1
  }

  lemma FirstBreakIs(line: string, rest: string)
    requires Unbroken(line) && (rest == "" || IsBreak(rest[0]))
    ensures FirstBreak(line + rest) == |line|
  {
    var s := line + rest;
    var k := FirstBreak(s);
    assert forall i :: 0 <= i < |line| ==> s[i] == line[i];
    assert forall i :: 0 <= i < k ==> s[..k][i] == s[i];
    assert rest != "" ==> IsBreak(s[|line|]);
  }

  function NonEmpty(line: string): seq<string>
  {
    if line == "" then [] else [line]
  }

  /** The non-empty pieces between carriage returns and line feeds. */
  function Fields(text: string): seq<string>
    decreases |text|
  {
    var k := FirstBreak(text);
    NonEmpty(text[..k]) + if k < |text| then Fields(text[k + 1..]) else []
  }

  /** `validate_path_line`. */
  function CheckPath(line: string, done: nat, limits: Limits): Option<FileError>
  {
    if |line| > limits.line then Some(LineTooLong)
    else if |line| > limits.value then Some(ValueTooLong)
    else if line != "" && done >= limits.records then Some(TooManyRecords)
    else None
  }

  /** The first field that does not fit. */
  function FirstRefusal(fields: seq<string>, done: nat, limits: Limits): Option<FileError>
  {
    if fields == [] then None
    else if CheckPath(fields[0], done, limits).Some? then CheckPath(fields[0], done, limits)
    else FirstRefusal(fields[1..], done + 1, limits)
  }

  function Checked(fields: seq<string>, limits: Limits): Result<seq<string>, FileError>
  {
    match FirstRefusal(fields, 0, limits)
    case Some(e) => Err(e)
    case None => Ok(fields)
  }

  predicate PathFits(p: string, limits: Limits)
  {
    |p| <= limits.line && |p| <= limits.value
  }

  /** Nothing is refused exactly when every field fits and there are not too many. */
  lemma {:induction false} RefusesNothing(fields: seq<string>, done: nat, limits: Limits)
    requires forall i :: 0 <= i < |fields| ==> fields[i] != ""
    ensures FirstRefusal(fields, done, limits).None? <==>
              (fields == [] || done + |fields| <= limits.records) && forall i :: 0 <= i < |fields| ==> PathFits(fields[i], limits)
  {
    if fields != [] {
      var rest := fields[1..];
      RefusesNothing(rest, done + 1, limits);
      assert forall i :: 0 <= i < |rest| ==> rest[i] == fields[i + 1];
      assert forall i :: 1 <= i < |fields| ==> fields[i] == rest[i - 1];
    }
  }

  lemma {:induction false} FieldsArePaths(text: string)
    ensures forall i :: 0 <= i < |Fields(text)| ==> Fields(text)[i] != "" && Unbroken(Fields(text)[i])
    decreases |text|
  {
    hide Unbroken;
    var k := FirstBreak(text);
    if k < |text| { FieldsArePaths(text[k + 1..]); }
  }

  lemma FirstRefusalConcat(a: seq<string>, b: seq<string>, done: nat, limits: Limits)
    requires FirstRefusal(a, done, limits).None?
    ensures FirstRefusal(a + b, done, limits) == FirstRefusal(b, done + |a|, limits)
    decreases |a|
  {
    if a == [] {
      assert a + b == b;
    } else {
      assert (a + b)[1..] == a[1..] + b;
      FirstRefusalConcat(a[1..], b, done + 1, limits);
    }
  }

  lemma RefusedLast(a: seq<string>, p: string, rest: seq<string>, limits: Limits)
    requires FirstRefusal(a, 0, limits).None? && p != ""
    ensures CheckPath(p, |a|, limits).Some? ==> FirstRefusal(a + ([p] + rest), 0, limits) == CheckPath(p, |a|, limits)
    ensures CheckPath(p, |a|, limits).None? ==> FirstRefusal(a + [p], 0, limits).None?
  {
    FirstRefusalConcat(a, [p] + rest, 0, limits);
    FirstRefusalConcat(a, [p], 0, limits);
    assert [p][1..] == [];
  }

  lemma FieldsStep(line: string, rest: string)
    requires Unbroken(line) && rest != "" && IsBreak(rest[0])
    ensures Fields(line + rest) == NonEmpty(line) + Fields(rest[1..])
  {
    FirstBreakIs(line, rest);
    assert (line + rest)[..|line|] == line;
    assert (line + rest)[|line| + 1..] == rest[1..];
  }

  lemma FieldsLast(line: string)
    requires Unbroken(line)
    ensures Fields(line) == NonEmpty(line)
  {
    assert line + "" == line;
    FirstBreakIs(line, "");
    assert line[..|line|] == line;
    assert NonEmpty(line) + [] == NonEmpty(line);
  }

  /** A line feed right after a break adds nothing. */
  lemma FieldsSkip(rest: string)
    requires rest != "" && IsBreak(rest[0])
    ensures Fields(rest) == Fields(rest[1..])
  {
    assert "" + rest == rest;
    FieldsStep("", rest);
    assert [] + Fields(rest[1..]) == Fields(rest[1..]);
  }

  /** `parse_paths`: exactly the fields, or the refusal of the first that does not fit. */
  method ParsePaths(text: string, limits: Limits) returns (r: Result<seq<string>, FileError>)
    ensures r == Checked(Fields(text), limits)
  {
    hide Fields, FirstRefusal, NonEmpty, CheckPath;
    var paths: seq<string>, start, index := [], 0, 0;
    assert text[0..] == text;
    assert Fields(text) == [] + Fields(text[0..]);
    NothingRefused(limits);
    while index < |text|
      invariant start <= index <= |text| + 1 && start <= |text| && (index > |text| ==> start == |text|)
      invariant index <= |text| ==> Unbroken(text[start..index])
      invariant Fields(text) == paths + Fields(text[start..]) && FirstRefusal(paths, 0, limits).None?
      decreases |text| - index
    {
      if IsBreak(text[index]) {
        var line := text[start..index];
        ghost var rest := text[index..];
        assert text[start..] == line + rest;
        FieldsStep(line, rest);
        assert rest[1..] == text[index + 1..];
        var refused := CheckPath(line, |paths|, limits);
        LineRead(paths, line, Fields(text[index + 1..]), limits);
        if refused.Some? {
          return Err(refused.value);
        }
        if line != "" {
          paths := paths + [line];
        }
        if text[index] == '\r' && index + 1 < |text| && text[index + 1] == '\n' {
          FieldsSkip(text[index + 1..]);
          assert text[index + 1..][1..] == text[index + 2..];
          index := index + 1;
        }
        start := index + 1;
        assert text[start..start] == "";
      } else {
        assert text[start..index + 1] == text[start..index] + [text[index]];
      }
      index := index + 1;
    }
    ghost var last := text[start..];
    assert Unbroken(last) by { assert index <= |text| ==> text[start..index] == last; assert index > |text| ==> last == ""; }
    FieldsLast(last);
    LineRead(paths, last, [], limits);
    assert NonEmpty(last) + [] == NonEmpty(last);
    if start < |text| {
      var line := text[start..];
      var refused := CheckPath(line, |paths|, limits);
      if refused.Some? {
        return Err(refused.value);
      }
      if line != "" {
        paths := paths + [line];
      }
    }
    assert paths + [] == paths;
    r := Ok(paths);
  }

  lemma NothingRefused(limits: Limits)
    ensures FirstRefusal([], 0, limits).None?
  {
  }

  /** One line read in the loop, empty or not, refused or not. */
  lemma LineRead(paths: seq<string>, line: string, rest: seq<string>, limits: Limits)
    requires FirstRefusal(paths, 0, limits).None?
    ensures line == "" ==> CheckPath(line, |paths|, limits).None? && paths + (NonEmpty(line) + rest) == paths + rest
    ensures line != "" ==> paths + (NonEmpty(line) + rest) == (paths + [line]) + rest
    ensures CheckPath(line, |paths|, limits).Some? ==>
              Checked(paths + (NonEmpty(line) + rest), limits) == Err(CheckPath(line, |paths|, limits).value)
    ensures CheckPath(line, |paths|, limits).None? && line != "" ==> FirstRefusal(paths + [line], 0, limits).None?
  {
    if line == "" {
      assert [] + rest == rest;
    } else {
      RefusedLast(paths, line, rest, limits);
    }
  }

  // ----- Writing and reading back -----

  predicate IsLineBreak(s: string)
  {
    s == "\n" || s == "\r" || s == "\r\n"
  }

  /** Each path followed by its own line break. */
  function PrintPaths(paths: seq<string>, breaks: seq<string>): string
    requires |paths| == |breaks|
  {
    if paths == [] then "" else paths[0] + breaks[0] + PrintPaths(paths[1..], breaks[1..])
  }

  lemma {:induction false} FieldsOfPrint(paths: seq<string>, breaks: seq<string>)
    requires |paths| == |breaks|
    requires forall i :: 0 <= i < |paths| ==> paths[i] != "" && Unbroken(paths[i]) && IsLineBreak(breaks[i])
    ensures Fields(PrintPaths(paths, breaks)) == paths
  {
    hide Fields, Unbroken;
    if paths == [] {
      NoFields();
    } else {
      var more := PrintPaths(paths[1..], breaks[1..]);
      FieldsOfPrint(paths[1..], breaks[1..]);
      var rest := breaks[0] + more;
      assert PrintPaths(paths, breaks) == paths[0] + rest;
      FieldsStep(paths[0], rest);
      if breaks[0] == "\r\n" {
        assert rest[1..] == "\n" + more;
        FieldsSkip(rest[1..]);
        assert rest[1..][1..] == more;
      } else {
        assert rest[1..] == more;
      }
      assert [paths[0]] + paths[1..] == paths;
    }
  }

  lemma NoFields()
    ensures Fields("") == []
  {
  }

  /** A written list of paths is read back exactly when every path fits and there are not too many. */
  lemma PathsRoundTrip(paths: seq<string>, breaks: seq<string>, limits: Limits)
    requires |paths| == |breaks|
    requires forall i :: 0 <= i < |paths| ==> paths[i] != "" && Unbroken(paths[i]) && IsLineBreak(breaks[i])
    ensures Checked(Fields(PrintPaths(paths, breaks)), limits) == Ok(paths) <==>
              |paths| <= limits.records && forall i :: 0 <= i < |paths| ==> PathFits(paths[i], limits)
  {
    hide Fields, FirstRefusal;
    FieldsOfPrint(paths, breaks);
    RefusesNothing(paths, 0, limits);
  }

  /** Whatever is read can be written and read again. */
  lemma ReadPathsAreWritable(text: string, limits: Limits)
    requires Checked(Fields(text), limits).Ok?
    ensures var paths := Checked(Fields(text), limits).value;
            && |paths| <= limits.records
            && forall i :: 0 <= i < |paths| ==> paths[i] != "" && Unbroken(paths[i]) && PathFits(paths[i], limits)
  {
    hide Fields, FirstRefusal, Unbroken;
    FieldsArePaths(text);
    RefusesNothing(Fields(text), 0, limits);
  }

  // ----- Which fields a text has -----

  /** The fields are the lines of the text from a position on that are not empty, in order. */
  ghost predicate FieldsOf(text: string, from: nat, fields: seq<string>, starts: seq<nat>)
  {
    && |starts| == |fields|
    && (forall k :: 0 <= k < |starts| ==> from <= starts[k] && fields[k] != "" && TextLines.IsLine(text, starts[k], fields[k]))
    && (forall j, k :: 0 <= j < k < |starts| ==> starts[j] < starts[k])
    && (forall i, line :: from <= i && TextLines.IsLine(text, i, line) && line != "" ==> i in starts)
  }

  /** One more line in front. */
  lemma FieldsOneMore(text: string, from: nat, line: string, fields: seq<string>, starts: seq<nat>) returns (all: seq<nat>)
    requires TextLines.IsLine(text, from, line) && FieldsOf(text, from + |line| + 1, fields, starts)
    ensures FieldsOf(text, from, NonEmpty(line) + fields, all)
  {
    hide TextLines.IsLine;
    all := (if line == "" then [] else [from]) + starts;
    forall i, other | from <= i && TextLines.IsLine(text, i, other) && other != ""
      ensures i in all
    {
      if i == from {
        TextLines.LineIsUnique(text, i, line, other);
        assert all[0] == from;
      } else {
        TextLines.NextLine(text, from, line, i, other);
        assert i in starts;
      }
    }
    var head := NonEmpty(line);
    forall k | 0 <= k < |all|
      ensures from <= all[k] && (head + fields)[k] != "" && TextLines.IsLine(text, all[k], (head + fields)[k])
    {
      if k >= |head| { assert all[k] == starts[k - |head|] && (head + fields)[k] == fields[k - |head|]; }
    }
  }

  lemma NoFieldsAtEnd(text: string)
    ensures FieldsOf(text, |text| + 1, [], [])
  {
  }

  lemma LineAt(text: string, from: nat)
    requires from <= |text| && TextLines.StartsLine(text, from)
    ensures var k := FirstBreak(text[from..]);
            && from + k <= |text| && TextLines.IsLine(text, from, text[from..][..k])
            && (from + k < |text| ==> TextLines.StartsLine(text, from + k + 1))
  {
    var s := text[from..];
    var k := FirstBreak(s);
    assert forall i :: 0 <= i < k ==> s[..k][i] == text[from + i];
  }

  lemma {:induction false} FieldsFrom(text: string, from: nat) returns (starts: seq<nat>)
    requires from <= |text| && TextLines.StartsLine(text, from)
    ensures FieldsOf(text, from, Fields(text[from..]), starts)
    decreases |text| - from
  {
    hide FieldsOf, TextLines.IsLine, TextLines.StartsLine, FirstBreak;
    var s := text[from..];
    var k := FirstBreak(s);
    LineAt(text, from);
    if k < |s| {
      var rest := FieldsFrom(text, from + k + 1);
      assert s[k + 1..] == text[from + k + 1..];
      starts := FieldsOneMore(text, from, s[..k], Fields(s[k + 1..]), rest);
    } else {
      NoFieldsAtEnd(text);
      starts := FieldsOneMore(text, from, s[..k], [], []);
    }
  }

  /** The fields of a file are exactly its lines that are not empty. */
  lemma FieldsExactly(text: string) returns (starts: seq<nat>)
    ensures FieldsOf(text, 0, Fields(text), starts)
  {
    hide FieldsOf, Fields;
    starts := FieldsFrom(text, 0);
    assert text[0..] == text;
  }

  /** What is refused first: the first field that is too long, or one too many. */
  lemma {:induction false} FirstRefusalExactly(fields: seq<string>, done: nat, limits: Limits) returns (i: nat)
    requires FirstRefusal(fields, done, limits).Some? && forall k :: 0 <= k < |fields| ==> fields[k] != ""
    ensures i < |fields| && RefusedFor(fields[i], done + i, limits, FirstRefusal(fields, done, limits).value)
    ensures forall j :: 0 <= j < i ==> PathFits(fields[j], limits) && done + j < limits.records
  {
    if CheckPath(fields[0], done, limits).Some? {
      i := 0;
    } else {
      var rest := fields[1..];
      var k := FirstRefusalExactly(rest, done + 1, limits);
      i := k + 1;
      assert forall j :: 0 < j < |fields| ==> fields[j] == rest[j - 1];
    }
  }

  predicate RefusedFor(p: string, before: nat, limits: Limits, e: FileError)
  {
    match e
    case LineTooLong => |p| > limits.line
    case ValueTooLong => limits.value < |p| <= limits.line
    case TooManyRecords => PathFits(p, limits) && before >= limits.records
    case _ => false
  }
}

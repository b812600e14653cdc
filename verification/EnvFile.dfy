/** Name/value command files of a job step (`parse_name_values` and `read_env_line` in
    crates/automata-ci-actions-runtime/src/file_command.rs). Text is one `char` per byte. */
module EnvFile {

  import opened NameValues
  import opened Text

  datatype Limits = Limits(line: nat, records: nat, name: nat, value: nat)

  datatype FileError =
    | LineTooLong | TooManyRecords | EmptyName | NameTooLong | ValueTooLong
    | EmptyDelimiter | MissingDelimiter | HeredocValueMissingNewline | MalformedRecord

  // ----- The line reader -----

  /** One line: its content, the width of its terminator, and the text after it. */
  datatype Line = Line(content: string, newline: nat, rest: string)

  predicate EndsWithCr(s: string)
  {
    s != "" && s[|s| - 1] == '\r'
  }

  /** `read_env_line` at the start of a non-empty text. */
  function ReadLine(text: string, platform: Platform): Line
    requires text != ""
  {
    var lf := IndexOf(text, '\n');
    if lf == |text| then Line(text, 0, "")
    else if platform == Windows && lf > 0 && text[lf - 1] == '\r' then Line(text[..lf - 1], 2, text[lf + 1..])
    else Line(text[..lf], 1, text[lf + 1..])
  }

  function Terminator(newline: nat): string
  {
    if newline == 0 then "" else if newline == 1 then "\n" else "\r\n"
  }

  /** A line and what follows it are the whole text, and the reader always advances. */
  lemma ReadLinePartitions(text: string, platform: Platform)
    requires text != ""
    ensures var l := ReadLine(text, platform);
            && text == l.content + Terminator(l.newline) + l.rest
            && |l.rest| < |text| && '\n' !in l.content && |Terminator(l.newline)| == l.newline
            && (l.newline == 0 ==> l.rest == "")
  {
    var lf := IndexOf(text, '\n');
    if lf < |text| {
      assert text == text[..lf] + "\n" + text[lf + 1..];
      if lf > 0 && text[lf - 1] == '\r' {
        assert text[..lf] == text[..lf - 1] + "\r";
        assert text == text[..lf - 1] + "\r\n" + text[lf + 1..];
      }
    }
  }

  /** All line contents of a text. */
  function LineContents(text: string, platform: Platform): seq<string>
    decreases |text|
  {
    if text == "" then [] else
      ReadLinePartitions(text, platform);
      var l := ReadLine(text, platform);
      [l.content] + LineContents(l.rest, platform)
  }

  // ----- The parser on text suffixes -----

  /** Where a heredoc body ends, if it has a line, and the text after its delimiter. */
  datatype Body = Body(end: Option<nat>, rest: string)

  /** Moves a body found after `width` further characters, the last value line ending at `end`. */
  function Extend(width: nat, end: Option<nat>, found: Result<Body, FileError>): Result<Body, FileError>
  {
    match found
    case Err(e) => Err(e)
    case Ok(b) => Ok(Body(if b.end.Some? then Some(width + b.end.value) else end, b.rest))
  }

  function ScanBody(text: string, delimiter: string, platform: Platform, limits: Limits): (r: Result<Body, FileError>)
    ensures r.Ok? ==> |r.value.rest| < |text| && (r.value.end.Some? ==> r.value.end.value <= |text|)
    decreases |text|
  {
    if text == "" then Err(MissingDelimiter) else
      ReadLinePartitions(text, platform);
      var l := ReadLine(text, platform);
      if |l.content| > limits.line then Err(LineTooLong)
      else if l.content == delimiter then Ok(Body(None, l.rest))
      else if l.newline == 0 then Err(HeredocValueMissingNewline)
      else Extend(|text| - |l.rest|, Some(|text| - |l.rest| - l.newline), ScanBody(l.rest, delimiter, platform, limits))
  }

  function BodyValue(text: string, body: Body): string
    requires body.end.Some? ==> body.end.value <= |text|
  {
    if body.end.Some? then text[..body.end.value] else ""
  }

  /** One record: what a non-empty line and the text after it denote. */
  datatype Parsed = Parsed(pair: NameValue, rest: string)

  function CheckName(name: string, limits: Limits): Option<FileError>
  {
    if name == "" then Some(EmptyName) else if |name| > limits.name then Some(NameTooLong) else None
  }

  function ParseRecord(content: string, rest: string, platform: Platform, limits: Limits): (r: Result<Parsed, FileError>)
    ensures r.Ok? ==> |r.value.rest| <= |rest|
  {
    var equals, heredoc := IndexOf(content, '='), Find(content, "<<");
    if equals < |content| && equals < heredoc then
      var name, value := content[..equals], content[equals + 1..];
      if CheckName(name, limits).Some? then Err(CheckName(name, limits).value)
      else if |value| > limits.value then Err(ValueTooLong)
      else Ok(Parsed(NameValue(name, value), rest))
    else if heredoc < |content| then
      var name, delimiter := content[..heredoc], content[heredoc + 2..];
      if CheckName(name, limits).Some? then Err(CheckName(name, limits).value)
      else if delimiter == "" then Err(EmptyDelimiter)
      else if |delimiter| > limits.name then Err(NameTooLong)
      else match ScanBody(rest, delimiter, platform, limits)
        case Err(e) => Err(e)
        case Ok(body) =>
          if |BodyValue(rest, body)| > limits.value then Err(ValueTooLong)
          else Ok(Parsed(NameValue(name, BodyValue(rest, body)), body.rest))
    else Err(MalformedRecord)
  }

  function Cons(p: NameValue, rest: Result<seq<NameValue>, FileError>): Result<seq<NameValue>, FileError>
  {
    if rest.Ok? then Ok([p] + rest.value) else rest
  }

  /** The whole file, with `done` records already read. */
  function Parse(text: string, done: nat, platform: Platform, limits: Limits): Result<seq<NameValue>, FileError>
    decreases |text|
  {
    if text == "" then Ok([]) else
      ReadLinePartitions(text, platform);
      var l := ReadLine(text, platform);
      if |l.content| > limits.line then Err(LineTooLong)
      else if l.content == "" then Parse(l.rest, done, platform, limits)
      else if done >= limits.records then Err(TooManyRecords)
      else match ParseRecord(l.content, l.rest, platform, limits)
        case Err(e) => Err(e)
        case Ok(p) => Cons(p.pair, Parse(p.rest, done + 1, platform, limits))
  }

  // ----- The loops -----

  function After(records: seq<NameValue>, rest: Result<seq<NameValue>, FileError>): Result<seq<NameValue>, FileError>
  {
    if rest.Ok? then Ok(records + rest.value) else rest
  }

  /** The line at an index, as the index of its successor. */
  method ReadLineAt(text: string, index: nat, platform: Platform) returns (line: Line, next: nat)
    requires index < |text|
    ensures line == ReadLine(text[index..], platform)
    ensures index < next <= |text| && text[next..] == line.rest && line.newline <= next - index
  {
    line := ReadLine(text[index..], platform);
    ReadLinePartitions(text[index..], platform);
    next := |text| - |line.rest|;
  }

  lemma ScanBodyStep(text: string, delimiter: string, platform: Platform, limits: Limits)
    requires text != ""
    ensures var l := ReadLine(text, platform);
            && |l.rest| < |text| && l.newline <= |text| - |l.rest|
            && ScanBody(text, delimiter, platform, limits) ==
                 if |l.content| > limits.line then Err(LineTooLong)
                 else if l.content == delimiter then Ok(Body(None, l.rest))
                 else if l.newline == 0 then Err(HeredocValueMissingNewline)
                 else Extend(|text| - |l.rest|, Some(|text| - |l.rest| - l.newline),
                             ScanBody(l.rest, delimiter, platform, limits))
  {
    hide ReadLine, Extend;
    ReadLinePartitions(text, platform);
  }

  /** The heredoc loop: finds the body that `ScanBody` describes. */
  method ReadBody(text: string, valueStart: nat, delimiter: string, platform: Platform, limits: Limits)
    returns (r: Result<(string, nat), FileError>)
    requires valueStart <= |text|
    ensures var s := ScanBody(text[valueStart..], delimiter, platform, limits);
            match s
            case Err(e) => r == Err(e)
            case Ok(body) => r.Ok? && r.value.0 == BodyValue(text[valueStart..], body)
                             && r.value.1 <= |text| && text[r.value.1..] == body.rest
  {
    hide ScanBody, ReadLine;
    var index, valueEnd := valueStart, valueStart;
    ghost var end: Option<nat> := None;
    ghost var whole := ScanBody(text[valueStart..], delimiter, platform, limits);
    var line;
    while true
      invariant valueStart <= valueEnd <= index <= |text|
      invariant end == (if index == valueStart then None else Some(valueEnd - valueStart))
      invariant whole == Extend(index - valueStart, end, ScanBody(text[index..], delimiter, platform, limits))
      decreases |text| - index
    {
      if index == |text| {
        NoBody(delimiter, platform, limits);
        return Err(MissingDelimiter);
      }
      ScanBodyStep(text[index..], delimiter, platform, limits);
      var next;
      line, next := ReadLineAt(text, index, platform);
      if |line.content| > limits.line {
        return Err(LineTooLong);
      }
      if line.content == delimiter {
        index := next;
        break;
      }
      if line.newline == 0 {
        return Err(HeredocValueMissingNewline);
      }
      valueEnd := next - line.newline;
      end := Some(valueEnd - valueStart);
      index := next;
    }
    var value := if valueEnd > valueStart then text[valueStart..valueEnd] else "";
    assert text[valueStart..][..valueEnd - valueStart] == text[valueStart..valueEnd];
    r := Ok((value, index));
  }

  lemma NoBody(delimiter: string, platform: Platform, limits: Limits)
    ensures ScanBody("", delimiter, platform, limits) == Err(MissingDelimiter)
  {
  }

  /** The branches of the loop body: one record and the index after it. */
  method ReadRecord(text: string, next: nat, content: string, platform: Platform, limits: Limits)
    returns (r: Result<(NameValue, nat), FileError>)
    requires next <= |text|
    ensures match ParseRecord(content, text[next..], platform, limits)
            case Err(e) => r == Err(e)
            case Ok(p) => r.Ok? && r.value.0 == p.pair && r.value.1 <= |text| && text[r.value.1..] == p.rest
  {
    hide ScanBody, ReadLine;
    var equals, heredoc := IndexOf(content, '='), Find(content, "<<");
    if equals < |content| && equals < heredoc {
      var name, value := content[..equals], content[equals + 1..];
      if CheckName(name, limits).Some? {
        return Err(CheckName(name, limits).value);
      }
      if |value| > limits.value {
        return Err(ValueTooLong);
      }
      return Ok((NameValue(name, value), next));
    }
    if heredoc == |content| {
      return Err(MalformedRecord);
    }
    var name, delimiter := content[..heredoc], content[heredoc + 2..];
    if CheckName(name, limits).Some? {
      return Err(CheckName(name, limits).value);
    }
    if delimiter == "" {
      return Err(EmptyDelimiter);
    }
    if |delimiter| > limits.name {
      return Err(NameTooLong);
    }
    var body := ReadBody(text, next, delimiter, platform, limits);
    if body.Err? {
      return Err(body.error);
    }
    if |body.value.0| > limits.value {
      return Err(ValueTooLong);
    }
    r := Ok((NameValue(name, body.value.0), body.value.1));
  }

  lemma ParseStep(text: string, done: nat, platform: Platform, limits: Limits)
    requires text != ""
    ensures var l := ReadLine(text, platform);
            Parse(text, done, platform, limits) ==
              if |l.content| > limits.line then Err(LineTooLong)
              else if l.content == "" then Parse(l.rest, done, platform, limits)
              else if done >= limits.records then Err(TooManyRecords)
              else match ParseRecord(l.content, l.rest, platform, limits)
                case Err(e) => Err(e)
                case Ok(p) => Cons(p.pair, Parse(p.rest, done + 1, platform, limits))
  {
  }

  /** `parse_name_values`. */
  method ParseNameValues(text: string, platform: Platform, limits: Limits) returns (r: Result<seq<NameValue>, FileError>)
    ensures r == Parse(text, 0, platform, limits)
  {
    hide Parse, ParseRecord, ReadLine;
    var commands, index := [], 0;
    ghost var whole := Parse(text, 0, platform, limits);
    assert text[0..] == text && (whole.Ok? ==> [] + whole.value == whole.value);
    while index < |text|
      invariant index <= |text|
      invariant whole == After(commands, Parse(text[index..], |commands|, platform, limits))
      decreases |text| - index
    {
      ParseStep(text[index..], |commands|, platform, limits);
      var line, next := ReadLineAt(text, index, platform);
      if |line.content| > limits.line {
        return Err(LineTooLong);
      }
      if line.content == "" {
        index := next;
        continue;
      }
      if |commands| >= limits.records {
        return Err(TooManyRecords);
      }
      var record := ReadRecord(text, next, line.content, platform, limits);
      if record.Err? {
        return Err(record.error);
      }
      AfterCons(commands, record.value.0, Parse(text[record.value.1..], |commands| + 1, platform, limits));
      index, commands := record.value.1, commands + [record.value.0];
    }
    NothingLeft(|commands|, platform, limits);
    assert text[index..] == "" && commands + [] == commands;
    r := Ok(commands);
  }

  lemma NothingLeft(done: nat, platform: Platform, limits: Limits)
    ensures Parse("", done, platform, limits) == Ok([])
  {
  }

  lemma AfterCons(commands: seq<NameValue>, pair: NameValue, rest: Result<seq<NameValue>, FileError>)
    ensures After(commands, Cons(pair, rest)) == After(commands + [pair], rest)
  {
    if rest.Ok? {
      assert commands + ([pair] + rest.value) == (commands + [pair]) + rest.value;
    }
  }

  // ----- Printing -----

  /** How a writer emits one pair. */
  datatype Entry = Inline(name: string, value: string) | Heredoc(name: string, value: string, delimiter: string)

  function Pair(e: Entry): NameValue
  {
    NameValue(e.name, e.value)
  }

  /** The line terminators a writer may use on a platform. */
  predicate IsNewline(newline: string, platform: Platform)
  {
    newline == "\n" || (platform == Windows && newline == "\r\n")
  }

  function PrintEntry(e: Entry, newline: string): string
  {
    match e
    case Inline(name, value) => name + "=" + value + newline
    case Heredoc(name, value, delimiter) =>
      name + "<<" + delimiter + newline + (value + newline + (delimiter + newline))
  }

  function Print(es: seq<Entry>, newline: string): string
  {
    if es == [] then "" else PrintEntry(es[0], newline) + Print(es[1..], newline)
  }

  /** A Windows reader takes a carriage return before a bare line feed as part of the terminator. */
  predicate LosesCr(line: string, newline: string, platform: Platform)
  {
    platform == Windows && newline == "\n" && EndsWithCr(line)
  }

  /** What the reader sees of a printed line. */
  function Seen(line: string, newline: string, platform: Platform): string
  {
    if LosesCr(line, newline, platform) then line[..|line| - 1] else line
  }

  /** Text that survives as one line. */
  predicate OneLine(line: string, newline: string, platform: Platform)
  {
    '\n' !in line && !LosesCr(line, newline, platform)
  }

  predicate NameFits(name: string, limits: Limits)
  {
    0 < |name| <= limits.name && '=' !in name && '\n' !in name && Find(name, "<<") == |name|
  }

  predicate Writable(e: Entry, newline: string, platform: Platform, limits: Limits)
  {
    && NameFits(e.name, limits) && |e.value| <= limits.value
    && match e
       case Inline(name, value) => OneLine(value, newline, platform) && |name| + 1 + |value| <= limits.line
       case Heredoc(name, value, delimiter) =>
         var seen := Seen(delimiter, newline, platform);
         && name[|name| - 1] != '<'
         && 0 < |seen| <= limits.name && '\n' !in delimiter && |name| + 2 + |seen| <= limits.line
         && !LosesCr(value, newline, platform)
         && NoDelimiterLine(LineContents(value + newline, platform), seen, limits)
  }

  // ----- Reading what was printed -----

  lemma ReadPrintedLine(content: string, newline: string, rest: string, platform: Platform)
    requires IsNewline(newline, platform) && '\n' !in content
    ensures var seen := Seen(content, newline, platform);
            ReadLine(content + newline + rest, platform) ==
              Line(seen, |newline| + |content| - |seen|, rest)
  {
    hide IndexOf;
    var text := content + newline + rest;
    if newline == "\n" {
      assert text == content + ['\n'] + rest;
      IndexOfConcat(content, '\n', rest);
      assert text[..|content|] == content && text[|content| + 1..] == rest;
      if LosesCr(content, newline, platform) {
        assert text[|content| - 1] == '\r' && text[..|content| - 1] == content[..|content| - 1];
      }
    } else {
      var before := content + "\r";
      assert text == before + ['\n'] + rest;
      IndexOfConcat(before, '\n', rest);
      assert text[..|content|] == content && text[|before| + 1..] == rest;
    }
  }

  /** Reading the first of several value lines does not depend on what follows the value. */
  lemma ReadInnerLine(value: string, tail: string, platform: Platform)
    requires '\n' in value
    ensures var l, m := ReadLine(value, platform), ReadLine(value + tail, platform);
            && l.newline > 0 && m.content == l.content && m.newline == l.newline && m.rest == l.rest + tail
  {
    hide IndexOf;
    var k := IndexOf(value, '\n');
    var whole := value + tail;
    assert whole == value[..k] + ['\n'] + (value[k + 1..] + tail);
    assert '\n' !in value[..k];
    IndexOfConcat(value[..k], '\n', value[k + 1..] + tail);
    assert whole[..k] == value[..k] && whole[k + 1..] == value[k + 1..] + tail;
    assert k > 0 ==> whole[k - 1] == value[k - 1] && whole[..k - 1] == value[..k - 1];
  }

  /** The last value line, then the delimiter. */
  lemma ScanLastLine(
      value: string, newline: string, delimiter: string, rest: string, platform: Platform, limits: Limits)
    requires IsNewline(newline, platform) && OneLine(value, newline, platform) && |value| <= limits.line
    requires '\n' !in delimiter
    requires var seen := Seen(delimiter, newline, platform); value != seen && |seen| <= limits.line
    ensures ScanBody(value + newline + (delimiter + newline + rest), Seen(delimiter, newline, platform), platform, limits) ==
              Ok(Body(Some(|value|), rest))
  {
    hide ScanBody, ReadLine;
    var tail, seen := delimiter + newline + rest, Seen(delimiter, newline, platform);
    ScanBodyStep(value + newline + tail, seen, platform, limits);
    ReadPrintedLine(value, newline, tail, platform);
    ScanBodyStep(tail, seen, platform, limits);
    ReadPrintedLine(delimiter, newline, rest, platform);
  }

  /** An earlier value line is skipped, whatever follows the value. */
  lemma ScanInnerLine(value: string, tail: string, delimiter: string, platform: Platform, limits: Limits)
    requires '\n' in value
    requires ReadLine(value, platform).content != delimiter && |ReadLine(value, platform).content| <= limits.line
    ensures var l := ReadLine(value, platform);
            && |l.rest| < |value|
            && ScanBody(value + tail, delimiter, platform, limits) ==
                 Extend(|value| - |l.rest|, Some(|value| - |l.rest| - l.newline),
                        ScanBody(l.rest + tail, delimiter, platform, limits))
  {
    hide ScanBody, ReadLine;
    ScanBodyStep(value + tail, delimiter, platform, limits);
    ReadInnerLine(value, tail, platform);
    ReadLinePartitions(value, platform);
  }

  lemma InnerLineContents(value: string, newline: string, platform: Platform)
    requires '\n' in value
    ensures LineContents(value + newline, platform) ==
              [ReadLine(value, platform).content] + LineContents(ReadLine(value, platform).rest + newline, platform)
  {
    hide LineContents, ReadLine;
    LineContentsStep(value + newline, platform);
    ReadInnerLine(value, newline, platform);
  }

  lemma LastLineContents(value: string, newline: string, platform: Platform)
    requires IsNewline(newline, platform) && OneLine(value, newline, platform)
    ensures LineContents(value + newline, platform) == [value]
  {
    ReadPrintedLine(value, newline, "", platform);
    assert value + newline + "" == value + newline;
    LineContentsStep(value + newline, platform);
  }

  lemma RestKeepsLast(value: string, newline: string, platform: Platform)
    requires value != "" && !LosesCr(value, newline, platform)
    ensures !LosesCr(ReadLine(value, platform).rest, newline, platform)
  {
    ReadLinePartitions(value, platform);
    var rest := ReadLine(value, platform).rest;
    assert rest != "" ==> rest[|rest| - 1] == value[|value| - 1];
  }

  predicate NoDelimiterLine(lines: seq<string>, delimiter: string, limits: Limits)
  {
    forall i :: 0 <= i < |lines| ==> lines[i] != delimiter && |lines[i]| <= limits.line
  }

  /** A heredoc body ends at its first delimiter line, and its value is the text before it. */
  lemma {:induction false} ScanPrintedBody(
      value: string, newline: string, delimiter: string, rest: string, platform: Platform, limits: Limits)
    requires IsNewline(newline, platform) && !LosesCr(value, newline, platform)
    requires '\n' !in delimiter && |Seen(delimiter, newline, platform)| <= limits.line
    requires NoDelimiterLine(LineContents(value + newline, platform), Seen(delimiter, newline, platform), limits)
    ensures ScanBody(value + newline + (delimiter + newline + rest), Seen(delimiter, newline, platform), platform, limits) ==
              Ok(Body(Some(|value|), rest))
    decreases |value|
  {
    hide ScanBody, ReadLine, LineContents;
    var lines, seen := LineContents(value + newline, platform), Seen(delimiter, newline, platform);
    if '\n' !in value {
      LastLineContents(value, newline, platform);
      assert lines[0] == value;
      ScanLastLine(value, newline, delimiter, rest, platform, limits);
    } else {
      var l, tail := ReadLine(value, platform), newline + (delimiter + newline + rest);
      InnerLineContents(value, newline, platform);
      assert lines[0] == l.content && lines[1..] == LineContents(l.rest + newline, platform);
      ScanInnerLine(value, tail, seen, platform, limits);
      assert value + tail == value + newline + (delimiter + newline + rest);
      assert l.rest + tail == l.rest + newline + (delimiter + newline + rest);
      RestKeepsLast(value, newline, platform);
      ScanPrintedBody(l.rest, newline, delimiter, rest, platform, limits);
    }
  }

  lemma LineContentsStep(text: string, platform: Platform)
    requires text != ""
    ensures LineContents(text, platform) == [ReadLine(text, platform).content] + LineContents(ReadLine(text, platform).rest, platform)
  {
  }

  lemma FindAfter(name: string, tail: string)
    requires Find(name, "<<") == |name| && (name == "" || name[|name| - 1] != '<')
    ensures Find(name + "<<" + tail, "<<") == |name|
  {
    var content := name + "<<" + tail;
    assert content[|name|..|name| + 2] == "<<";
    forall i | 0 <= i < |name|
      ensures !At(content, "<<", i)
    {
      assert !At(name, "<<", i);
      assert content[i] == name[i];
      if i + 1 < |name| {
        assert content[i..i + 2] == name[i..i + 2];
      } else {
        assert content[i..i + 2][0] == content[i];
      }
    }
    FindIs(content, "<<", |name|);
  }

  lemma FindBeyond(name: string, value: string)
    requires Find(name, "<<") == |name|
    ensures |name| < Find(name + "=" + value, "<<")
  {
    var content := name + "=" + value;
    forall i | 0 <= i <= |name|
      ensures !At(content, "<<", i)
    {
      if i + 1 < |name| {
        assert content[i..i + 2] == name[i..i + 2];
        assert !At(name, "<<", i);
      } else if i + 2 <= |content| {
        assert content[i..i + 2][0] == content[i] && content[i..i + 2][1] == content[i + 1];
      }
    }
  }

  lemma ParseInlineRecord(name: string, value: string, rest: string, platform: Platform, limits: Limits)
    requires NameFits(name, limits) && |value| <= limits.value
    ensures ParseRecord(name + "=" + value, rest, platform, limits) == Ok(Parsed(NameValue(name, value), rest))
  {
    var content := name + "=" + value;
    assert content == name + ['='] + value;
    IndexOfConcat(name, '=', value);
    FindBeyond(name, value);
    assert content[..|name|] == name && content[|name| + 1..] == value;
  }

  lemma ParseHeredocRecord(
      name: string, value: string, delimiter: string, newline: string, rest: string, platform: Platform, limits: Limits)
    requires IsNewline(newline, platform) && Writable(Heredoc(name, value, delimiter), newline, platform, limits)
    ensures ParseRecord(name + "<<" + Seen(delimiter, newline, platform),
                        value + newline + (delimiter + newline + rest), platform, limits) ==
              Ok(Parsed(NameValue(name, value), rest))
  {
    hide ScanBody;
    var seen := Seen(delimiter, newline, platform);
    var content := name + "<<" + seen;
    var text := value + newline + (delimiter + newline + rest);
    FindAfter(name, seen);
    assert content[..|name|] == name && content[|name| + 2..] == seen;
    assert forall j :: 0 <= j < |name| ==> content[j] == name[j];
    assert IndexOf(content, '=') >= |name|;
    ScanPrintedBody(value, newline, delimiter, rest, platform, limits);
    assert text[..|value|] == value;
  }

  lemma HeaderSeen(name: string, delimiter: string, newline: string, platform: Platform)
    ensures Seen(name + "<<" + delimiter, newline, platform) == name + "<<" + Seen(delimiter, newline, platform)
  {
  }

  lemma InlineSeen(name: string, value: string, newline: string, platform: Platform)
    requires '\n' !in name && OneLine(value, newline, platform)
    ensures OneLine(name + "=" + value, newline, platform)
  {
  }

  lemma ReadPrintedInline(name: string, value: string, newline: string, rest: string, platform: Platform, limits: Limits)
    requires IsNewline(newline, platform) && Writable(Inline(name, value), newline, platform, limits)
    ensures ReadLine(PrintEntry(Inline(name, value), newline) + rest, platform) == Line(name + "=" + value, |newline|, rest)
  {
    hide ReadLine;
    var content := name + "=" + value;
    assert PrintEntry(Inline(name, value), newline) + rest == content + newline + rest;
    InlineSeen(name, value, newline, platform);
    ReadPrintedLine(content, newline, rest, platform);
  }

  lemma ReadPrintedHeader(
      name: string, value: string, delimiter: string, newline: string, rest: string, platform: Platform, limits: Limits)
    requires IsNewline(newline, platform) && '\n' !in name && '\n' !in delimiter
    ensures var l := ReadLine(PrintEntry(Heredoc(name, value, delimiter), newline) + rest, platform);
            && l.content == name + "<<" + Seen(delimiter, newline, platform)
            && l.rest == value + newline + (delimiter + newline + rest)
  {
    hide ReadLine, Seen;
    var content, after := name + "<<" + delimiter, value + newline + (delimiter + newline + rest);
    assert PrintEntry(Heredoc(name, value, delimiter), newline) + rest == content + newline + after;
    HeaderSeen(name, delimiter, newline, platform);
    ReadPrintedLine(content, newline, after, platform);
  }

  /** The first line of a printed entry, and the record read from it. */
  lemma ReadPrintedEntry(e: Entry, newline: string, rest: string, platform: Platform, limits: Limits)
    requires IsNewline(newline, platform) && Writable(e, newline, platform, limits)
    ensures var l := ReadLine(PrintEntry(e, newline) + rest, platform);
            && 0 < |l.content| <= limits.line
            && ParseRecord(l.content, l.rest, platform, limits) == Ok(Parsed(Pair(e), rest))
  {
    hide ReadLine, ParseRecord, LineContents, PrintEntry, Seen;
    match e
    case Inline(name, value) =>
      ReadPrintedInline(name, value, newline, rest, platform, limits);
      ParseInlineRecord(name, value, rest, platform, limits);
    case Heredoc(name, value, delimiter) =>
      ReadPrintedHeader(name, value, delimiter, newline, rest, platform, limits);
      ParseHeredocRecord(name, value, delimiter, newline, rest, platform, limits);
  }

  lemma {:induction false} ParsePrinted(es: seq<Entry>, done: nat, newline: string, platform: Platform, limits: Limits)
    requires IsNewline(newline, platform) && done + |es| <= limits.records
    requires forall i :: 0 <= i < |es| ==> Writable(es[i], newline, platform, limits)
    ensures Parse(Print(es, newline), done, platform, limits) == Ok(Pairs(es))
    decreases |es|
  {
    hide Parse, ReadLine, ParseRecord, Writable, PrintEntry;
    if es == [] {
      NothingLeft(done, platform, limits);
    } else {
      var e, text := es[0], Print(es, newline);
      ReadPrintedEntry(e, newline, Print(es[1..], newline), platform, limits);
      PrintedIsNotEmpty(e, newline);
      ParseStep(text, done, platform, limits);
      ParsePrinted(es[1..], done + 1, newline, platform, limits);
      assert Pairs(es) == [Pair(e)] + Pairs(es[1..]);
    }
  }

  lemma PrintedIsNotEmpty(e: Entry, newline: string)
    ensures PrintEntry(e, newline) != ""
  {
  }

  function Pairs(es: seq<Entry>): (r: seq<NameValue>)
    ensures |r| == |es|
  {
    seq(|es|, i requires 0 <= i < |es| => Pair(es[i]))
  }

  /** Parsing undoes printing on both platforms, whichever form each pair is written in. */
  lemma RoundTrip(es: seq<Entry>, newline: string, platform: Platform, limits: Limits)
    requires IsNewline(newline, platform) && |es| <= limits.records
    requires forall i :: 0 <= i < |es| ==> Writable(es[i], newline, platform, limits)
    ensures Parse(Print(es, newline), 0, platform, limits) == Ok(Pairs(es))
  {
    ParsePrinted(es, 0, newline, platform, limits);
  }

  // ----- Exactly which entries survive -----

  lemma RecordNameFits(content: string, rest: string, platform: Platform, limits: Limits)
    requires '\n' !in content && ParseRecord(content, rest, platform, limits).Ok?
    ensures NameFits(ParseRecord(content, rest, platform, limits).value.pair.name, limits)
  {
    var k := if IndexOf(content, '=') < Find(content, "<<") then IndexOf(content, '=') else Find(content, "<<");
    var name := content[..k];
    assert ParseRecord(content, rest, platform, limits).value.pair.name == name;
    forall i | 0 <= i < |name|
      ensures !At(name, "<<", i) && name[i] != '='
    {
      assert !At(content, "<<", i);
      if i + 2 <= |name| { assert name[i..i + 2] == content[i..i + 2]; }
    }
  }

  /** Every name the parser returns is a legal one. */
  lemma {:induction false} ParsedNamesFit(text: string, done: nat, platform: Platform, limits: Limits)
    requires Parse(text, done, platform, limits).Ok?
    ensures forall i :: 0 <= i < |Parse(text, done, platform, limits).value| ==>
              NameFits(Parse(text, done, platform, limits).value[i].name, limits)
    decreases |text|
  {
    hide ReadLine, ParseRecord, NameFits, Parse;
    if text == "" {
      NothingLeft(done, platform, limits);
    } else {
      ParseStep(text, done, platform, limits);
      ReadLinePartitions(text, platform);
      var l := ReadLine(text, platform);
      if l.content == "" {
        ParsedNamesFit(l.rest, done, platform, limits);
      } else {
        RecordNameFits(l.content, l.rest, platform, limits);
        ParsedNamesFit(ParseRecord(l.content, l.rest, platform, limits).value.rest, done + 1, platform, limits);
      }
    }
  }

  /** A prefix without line breaks only lengthens the first line. */
  lemma ReadAfterPrefix(prefix: string, text: string, platform: Platform)
    requires prefix != "" && text != "" && '\n' !in prefix && !EndsWithCr(prefix)
    ensures var l := ReadLine(text, platform);
            ReadLine(prefix + text, platform) == Line(prefix + l.content, l.newline, l.rest)
  {
    hide IndexOf;
    var lf, whole := IndexOf(text, '\n'), prefix + text;
    if lf < |text| {
      assert whole == (prefix + text[..lf]) + ['\n'] + text[lf + 1..];
      IndexOfConcat(prefix + text[..lf], '\n', text[lf + 1..]);
      assert whole[..|prefix| + lf] == prefix + text[..lf] && whole[|prefix| + lf + 1..] == text[lf + 1..];
      if lf > 0 {
        assert whole[|prefix| + lf - 1] == text[lf - 1];
        assert whole[..|prefix| + lf - 1] == prefix + text[..lf - 1];
      } else {
        assert whole[|prefix| + lf - 1] == prefix[|prefix| - 1];
      }
    } else {
      assert '\n' !in whole;
    }
  }

  lemma SeenLineIsWhole(value: string, newline: string, platform: Platform)
    requires IsNewline(newline, platform) && ReadLine(value + newline, platform).content == value
    ensures OneLine(value, newline, platform)
  {
    ReadLinePartitions(value + newline, platform);
    ReadPrintedLine(value, newline, "", platform);
    assert value + newline + "" == value + newline;
  }

  /** The parse of one printed entry. */
  predicate Survives(e: Entry, newline: string, platform: Platform, limits: Limits)
  {
    Parse(PrintEntry(e, newline), 0, platform, limits) == Ok([Pair(e)])
  }

  lemma WritableSurvives(e: Entry, newline: string, platform: Platform, limits: Limits)
    requires IsNewline(newline, platform) && limits.records > 0 && Writable(e, newline, platform, limits)
    ensures Survives(e, newline, platform, limits)
  {
    hide Parse, Writable, PrintEntry;
    RoundTrip([e], newline, platform, limits);
    assert Print([e], newline) == PrintEntry(e, newline) + Print([], newline) == PrintEntry(e, newline);
    assert Pairs([e]) == [Pair(e)];
  }

  /** What surviving says about the first line read. */
  lemma FirstRecord(text: string, pair: NameValue, platform: Platform, limits: Limits)
    requires text != "" && Parse(text, 0, platform, limits) == Ok([pair])
    requires ReadLine(text, platform).content != ""
    ensures NameFits(pair.name, limits)
    ensures var l := ReadLine(text, platform);
            && |l.content| <= limits.line && ParseRecord(l.content, l.rest, platform, limits).Ok?
            && ParseRecord(l.content, l.rest, platform, limits).value.pair == pair
  {
    hide ReadLine, ParseRecord, Parse, NameFits;
    ParseStep(text, 0, platform, limits);
    ParsedNamesFit(text, 0, platform, limits);
    assert [pair][0] == pair;
  }

  lemma SurvivingNameFits(e: Entry, newline: string, platform: Platform, limits: Limits)
    requires Survives(e, newline, platform, limits)
    ensures NameFits(e.name, limits)
  {
    hide NameFits;
    ParsedNamesFit(PrintEntry(e, newline), 0, platform, limits);
    assert [Pair(e)][0] == Pair(e);
  }

  /** An inline pair survives exactly when its name is legal, its value is one line that keeps
      its last carriage return, and the limits hold. */
  lemma InlineExact(name: string, value: string, newline: string, platform: Platform, limits: Limits)
    requires IsNewline(newline, platform) && limits.records > 0
    ensures Survives(Inline(name, value), newline, platform, limits) <==>
              Writable(Inline(name, value), newline, platform, limits)
  {
    var e := Inline(name, value);
    if Writable(e, newline, platform, limits) {
      WritableSurvives(e, newline, platform, limits);
    }
    if Survives(e, newline, platform, limits) {
      SurvivingInline(name, value, newline, platform, limits);
    }
  }

  lemma SurvivingInline(name: string, value: string, newline: string, platform: Platform, limits: Limits)
    requires IsNewline(newline, platform) && Survives(Inline(name, value), newline, platform, limits)
    ensures Writable(Inline(name, value), newline, platform, limits)
  {
    hide ReadLine, ParseRecord, Parse;
    SurvivingNameFits(Inline(name, value), newline, platform, limits);
    var text, prefix := PrintEntry(Inline(name, value), newline), name + "=";
    assert text == prefix + (value + newline);
    ReadAfterPrefix(prefix, value + newline, platform);
    FirstRecord(text, NameValue(name, value), platform, limits);
    var l := ReadLine(value + newline, platform);
    InlineRecordValue(name, l.content, l.rest, platform, limits);
    SeenLineIsWhole(value, newline, platform);
  }

  lemma InlineRecordValue(name: string, value: string, rest: string, platform: Platform, limits: Limits)
    requires NameFits(name, limits)
    ensures var r := ParseRecord(name + "=" + value, rest, platform, limits);
            r.Ok? ==> r.value.pair.value == value && |value| <= limits.value
  {
    var content := name + "=" + value;
    assert content == name + ['='] + value;
    IndexOfConcat(name, '=', value);
    FindBeyond(name, value);
    assert content[|name| + 1..] == value;
  }

  /** A heredoc body that reads back as the value has no delimiter line and keeps its last character. */
  lemma {:induction false} SurvivingBody(
      value: string, newline: string, tail: string, delimiter: string, platform: Platform, limits: Limits)
    requires IsNewline(newline, platform) && delimiter != ""
    requires var text := value + newline + tail;
             var body := ScanBody(text, delimiter, platform, limits);
             body.Ok? && BodyValue(text, body.value) == value
    ensures !LosesCr(value, newline, platform)
    ensures NoDelimiterLine(LineContents(value + newline, platform), delimiter, limits)
    decreases |value|
  {
    hide ScanBody, ReadLine, LineContents;
    var text := value + newline + tail;
    if '\n' !in value {
      SurvivingLastLine(value, newline, tail, delimiter, platform, limits);
      LastLineContents(value, newline, platform);
    } else {
      var l := ReadLine(value, platform);
      assert value + (newline + tail) == text;
      SurvivingInnerLine(value, newline + tail, delimiter, platform, limits);
      assert l.rest + (newline + tail) == l.rest + newline + tail;
      SurvivingBody(l.rest, newline, tail, delimiter, platform, limits);
      InnerLineContents(value, newline, platform);
      ReadLinePartitions(value, platform);
      assert value[|value| - 1] == if l.rest == "" then '\n' else l.rest[|l.rest| - 1];
    }
  }

  lemma SurvivingInnerLine(value: string, tail: string, delimiter: string, platform: Platform, limits: Limits)
    requires '\n' in value
    requires var body := ScanBody(value + tail, delimiter, platform, limits);
             body.Ok? && BodyValue(value + tail, body.value) == value
    ensures var l := ReadLine(value, platform);
            var inner := ScanBody(l.rest + tail, delimiter, platform, limits);
            && |l.rest| < |value| && l.content != delimiter && |l.content| <= limits.line
            && inner.Ok? && BodyValue(l.rest + tail, inner.value) == l.rest
  {
    hide ScanBody, ReadLine;
    var text := value + tail;
    ScanBodyStep(text, delimiter, platform, limits);
    ReadInnerLine(value, tail, platform);
    ReadLinePartitions(value, platform);
    var l := ReadLine(value, platform);
    var body, inner := ScanBody(text, delimiter, platform, limits), ScanBody(l.rest + tail, delimiter, platform, limits);
    assert body.value.end.Some? && |BodyValue(text, body.value)| == body.value.end.value;
    assert inner.Ok? && inner.value.end == Some(|l.rest|);
    assert (l.rest + tail)[..|l.rest|] == l.rest;
  }

  lemma SurvivingLastLine(
      value: string, newline: string, tail: string, delimiter: string, platform: Platform, limits: Limits)
    requires IsNewline(newline, platform) && delimiter != "" && '\n' !in value
    requires var text := value + newline + tail;
             var body := ScanBody(text, delimiter, platform, limits);
             body.Ok? && BodyValue(text, body.value) == value
    ensures OneLine(value, newline, platform) && value != delimiter && |value| <= limits.line
  {
    hide ScanBody, ReadLine;
    var text := value + newline + tail;
    ScanBodyStep(text, delimiter, platform, limits);
    ReadPrintedLine(value, newline, tail, platform);
    var body := ScanBody(text, delimiter, platform, limits).value;
    assert body.end.Some? ==> |BodyValue(text, body)| == body.end.value;
  }

  lemma SurvivingHeredoc(
      name: string, value: string, delimiter: string, newline: string, platform: Platform, limits: Limits)
    requires IsNewline(newline, platform) && '\n' !in delimiter
    requires Survives(Heredoc(name, value, delimiter), newline, platform, limits)
    ensures Writable(Heredoc(name, value, delimiter), newline, platform, limits)
  {
    hide ReadLine, ParseRecord, Parse, ScanBody, LineContents;
    var e := Heredoc(name, value, delimiter);
    SurvivingNameFits(e, newline, platform, limits);
    var text, content := PrintEntry(e, newline), name + "<<" + delimiter;
    var after, seen := value + newline + (delimiter + newline), Seen(delimiter, newline, platform);
    assert text == content + newline + after;
    HeaderSeen(name, delimiter, newline, platform);
    ReadPrintedLine(content, newline, after, platform);
    FirstRecord(text, NameValue(name, value), platform, limits);
    HeredocRecordValue(name, seen, after, platform, limits);
    SurvivingBody(value, newline, delimiter + newline, seen, platform, limits);
  }

  lemma HeredocRecordValue(name: string, delimiter: string, rest: string, platform: Platform, limits: Limits)
    requires NameFits(name, limits)
    requires ParseRecord(name + "<<" + delimiter, rest, platform, limits).Ok?
    requires ParseRecord(name + "<<" + delimiter, rest, platform, limits).value.pair.name == name
    ensures name[|name| - 1] != '<' && 0 < |delimiter| <= limits.name
    ensures var body := ScanBody(rest, delimiter, platform, limits);
            var pair := ParseRecord(name + "<<" + delimiter, rest, platform, limits).value.pair;
            body.Ok? && BodyValue(rest, body.value) == pair.value && |pair.value| <= limits.value
  {
    hide ScanBody, Find, IndexOf;
    var content := name + "<<" + delimiter;
    HeaderPositions(name, delimiter);
    assert |content[..Find(content, "<<")]| == Find(content, "<<") == |name|;
  }

  lemma HeaderPositions(name: string, delimiter: string)
    requires name != "" && '=' !in name
    ensures var content := name + "<<" + delimiter;
            && IndexOf(content, '=') > |name| && Find(content, "<<") <= |name|
            && (Find(content, "<<") == |name| ==> name[|name| - 1] != '<')
            && content[|name| + 2..] == delimiter
  {
    var content := name + "<<" + delimiter;
    assert forall j :: 0 <= j <= |name| ==> content[j] == if j < |name| then name[j] else '<';
    assert content[|name|..|name| + 2] == "<<" && At(content, "<<", |name|);
    assert content[|name| - 1..|name| + 1] == [name[|name| - 1], '<'];
    assert name[|name| - 1] == '<' ==> At(content, "<<", |name| - 1);
  }

  /** A heredoc survives exactly when its name is legal, no value line is its delimiter, the value
      keeps its last carriage return, and the limits hold. */
  lemma HeredocExact(
      name: string, value: string, delimiter: string, newline: string, platform: Platform, limits: Limits)
    requires IsNewline(newline, platform) && limits.records > 0 && '\n' !in delimiter
    ensures Survives(Heredoc(name, value, delimiter), newline, platform, limits) <==>
              Writable(Heredoc(name, value, delimiter), newline, platform, limits)
  {
    hide Writable, Survives;
    var e := Heredoc(name, value, delimiter);
    if Writable(e, newline, platform, limits) {
      WritableSurvives(e, newline, platform, limits);
    }
    if Survives(e, newline, platform, limits) {
      SurvivingHeredoc(name, value, delimiter, newline, platform, limits);
    }
  }

  /** A carriage return at the end of a value is lost to a Windows reader when the writer ends the
      line with a bare line feed: both writers produce one text. */
  lemma WindowsLosesCr(name: string, value: string, limits: Limits)
    requires limits.records > 0 && Writable(Inline(name, value), "\r\n", Windows, limits)
    ensures Parse(PrintEntry(Inline(name, value + "\r"), "\n"), 0, Windows, limits) == Ok([NameValue(name, value)])
  {
    hide Parse, Writable;
    WritableSurvives(Inline(name, value), "\r\n", Windows, limits);
    assert PrintEntry(Inline(name, value + "\r"), "\n") == PrintEntry(Inline(name, value), "\r\n");
  }
}

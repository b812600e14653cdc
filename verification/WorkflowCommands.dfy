/** Workflow commands on a step's output stream (`parse_command` and `parse_properties` in
    crates/automata-ci-actions-runtime/src/workflow_command.rs). */
module WorkflowCommands {

  import opened Text
  import opened Utf8
  import opened Escapes

  datatype Limits = Limits(
    streamBytes: nat, lineBytes: nat, streamLines: nat, commands: nat,
    properties: nat, nameBytes: nat, dataBytes: nat, masks: nat)

  datatype CommandError =
    | NonUtf8 | LineTooLong | StreamTooLarge | TooManyLines | TooManyCommands | TooManyMasks
    | NameTooLong | TooManyProperties | DataTooLong | InvalidStopToken | InvalidEchoValue

  datatype Property = Property(name: string, value: string)

  datatype RawCommand = RawCommand(name: string, properties: seq<Property>, data: string)

  const REGISTERED := [
    "add-mask", "add-matcher", "debug", "echo", "endgroup", "error", "group", "notice",
    "remove-matcher", "stop-commands", "warning"]

  // ----- Trimming -----

  /** The Unicode `White_Space` property. */
  predicate IsWhite(c: char)
  {
    var n := c as int;
    || 0x09 <= n <= 0x0D || n == 0x20 || n == 0x85 || n == 0xA0 || n == 0x1680
    || 0x2000 <= n <= 0x200A || n == 0x2028 || n == 0x2029 || n == 0x202F || n == 0x205F || n == 0x3000
  }

  function TrimStart(s: string): (r: string)
    ensures r != "" ==> !IsWhite(r[0])
  {
    if s != "" && IsWhite(s[0]) then TrimStart(s[1..]) else s
  }

  predicate AllWhite(s: string)
  {
    forall i :: 0 <= i < |s| ==> IsWhite(s[i])
  }

  function TrimEnd(s: string): (r: string)
    ensures r <= s
    ensures r != "" ==> !IsWhite(r[|r| - 1])
  {
    if s != "" && IsWhite(s[|s| - 1]) then TrimEnd(s[..|s| - 1]) else s
  }

  function Trim(s: string): string
  {
    TrimEnd(TrimStart(s))
  }

  // ----- Properties -----

  /** The first property with a name, ignoring ASCII case, or the number of properties. */
  function Position(ps: seq<Property>, name: string): (k: nat)
    ensures k <= |ps|
    ensures k < |ps| ==> EqIgnoreCase(ps[k].name, name)
    ensures forall i :: 0 <= i < k ==> !EqIgnoreCase(ps[i].name, name)
  {
    if ps == [] || EqIgnoreCase(ps[0].name, name) then 0 else 1 + Position(ps[1..], name)
  }

  /** Overwrites the value under an equal name, keeping its spelling and place, or appends. */
  function Store(ps: seq<Property>, name: string, value: string): seq<Property>
  {
    var k := Position(ps, name);
    if k < |ps| then ps[k := Property(ps[k].name, value)] else ps + [Property(name, value)]
  }

  /** A piece denotes a property when it has a non-empty name and a non-empty raw value. */
  predicate IsAssignment(piece: string)
  {
    0 < IndexOf(piece, '=') < |piece| - 1
  }

  function ParsePieces(pieces: seq<string>, ps: seq<Property>, count: nat, limits: Limits): Result<seq<Property>, CommandError>
  {
    if pieces == [] then Ok(ps)
    else if pieces[0] == "" then ParsePieces(pieces[1..], ps, count, limits)
    else if count + 1 > limits.properties then Err(TooManyProperties)
    else if !IsAssignment(pieces[0]) then ParsePieces(pieces[1..], ps, count + 1, limits)
    else
      var equals := IndexOf(pieces[0], '=');
      var name, value := pieces[0][..equals], UnescapeProperty(pieces[0][equals + 1..]);
      if |Bytes(name)| > limits.nameBytes then Err(NameTooLong)
      else if |Bytes(value)| > limits.dataBytes then Err(DataTooLong)
      else ParsePieces(pieces[1..], Store(ps, name, value), count + 1, limits)
  }

  function ParseProperties(source: string, limits: Limits): Result<seq<Property>, CommandError>
  {
    ParsePieces(Split(source, ','), [], 0, limits)
  }

  /** The loop of `parse_properties`. */
  method ReadProperties(source: string, limits: Limits) returns (r: Result<seq<Property>, CommandError>)
    ensures r == ParseProperties(source, limits)
  {
    var pieces := Split(source, ',');
    var properties: seq<Property>, count := [], 0;
    for i := 0 to |pieces|
      invariant ParsePieces(pieces, [], 0, limits) == ParsePieces(pieces[i..], properties, count, limits)
    {
      var piece := pieces[i];
      assert pieces[i..][0] == piece && pieces[i..][1..] == pieces[i + 1..];
      if piece == "" {
        continue;
      }
      count := count + 1;
      if count > limits.properties {
        return Err(TooManyProperties);
      }
      var equals := IndexOf(piece, '=');
      if equals == |piece| || equals == 0 || equals + 1 == |piece| {
        continue;
      }
      var name := piece[..equals];
      if |Bytes(name)| > limits.nameBytes {
        return Err(NameTooLong);
      }
      var value := UnescapeProperty(piece[equals + 1..]);
      if |Bytes(value)| > limits.dataBytes {
        return Err(DataTooLong);
      }
      properties := Store(properties, name, value);
    }
    r := Ok(properties);
  }

  // ----- Commands -----

  predicate IsRegistered(name: string)
  {
    exists i :: 0 <= i < |REGISTERED| && EqIgnoreCase(REGISTERED[i], name)
  }

  predicate Recognized(name: string, dynamic: Option<string>)
  {
    IsRegistered(name) || (dynamic.Some? && EqIgnoreCase(dynamic.value, name))
  }

  function ParseCommand(line: string, limits: Limits, dynamic: Option<string>): Result<Option<RawCommand>, CommandError>
  {
    var message := TrimStart(line);
    if !("::" <= message) then Ok(None) else
      var rest := message[2..];
      var separator := Find(rest, "::");
      if separator == |rest| then Ok(None)
      else ParseParts(rest[..separator], rest[separator + 2..], limits, dynamic)
  }

  /** The command information before the second `::` and the raw data after it. */
  function ParseParts(info: string, raw: string, limits: Limits, dynamic: Option<string>): Result<Option<RawCommand>, CommandError>
  {
    var space := IndexOf(info, ' ');
    var name := info[..space];
    if !Recognized(name, dynamic) then Ok(None)
    else if |Bytes(name)| > limits.nameBytes then Err(NameTooLong)
    else
      var properties := if 0 < space < |info| then ParseProperties(Trim(info[space + 1..]), limits) else Ok([]);
      match properties
      case Err(e) => Err(e)
      case Ok(ps) =>
        var data := UnescapeData(raw);
        if |Bytes(data)| > limits.dataBytes then Err(DataTooLong) else Ok(Some(RawCommand(name, ps, data)))
  }

  // ----- Printing -----

  function PropertyText(p: Property): string
  {
    p.name + (['='] + EscapeProperty(p.value))
  }

  function PropertyTexts(ps: seq<Property>): (r: seq<string>)
    ensures |r| == |ps|
    ensures forall i :: 0 <= i < |ps| ==> r[i] == PropertyText(ps[i])
  {
    seq(|ps|, i requires 0 <= i < |ps| => PropertyText(ps[i]))
  }

  function PrintProperties(ps: seq<Property>): string
  {
    Join(PropertyTexts(ps), ',')
  }

  function Info(c: RawCommand): string
  {
    if c.properties == [] then c.name else c.name + ([' '] + PrintProperties(c.properties))
  }

  function Print(c: RawCommand): string
  {
    "::" + (Info(c) + ("::" + EscapeData(c.data)))
  }

  predicate ContainsSeparator(s: string)
  {
    Find(s, "::") < |s|
  }

  predicate DistinctNames(ps: seq<Property>)
  {
    forall i, j :: 0 <= i < j < |ps| ==> !EqIgnoreCase(ps[i].name, ps[j].name)
  }

  predicate GoodProperty(p: Property, limits: Limits)
  {
    && p.name != "" && ',' !in p.name && '=' !in p.name && p.value != ""
    && |Bytes(p.name)| <= limits.nameBytes && |Bytes(p.value)| <= limits.dataBytes
  }

  predicate GoodProperties(ps: seq<Property>, limits: Limits)
  {
    (forall i :: 0 <= i < |ps| ==> GoodProperty(ps[i], limits)) && DistinctNames(ps)
  }

  /** A recognized command within its limits, with properties that can be told apart. */
  predicate WellFormed(c: RawCommand, limits: Limits, dynamic: Option<string>)
  {
    && Recognized(c.name, dynamic) && |Bytes(c.name)| <= limits.nameBytes
    && |Bytes(c.data)| <= limits.dataBytes && |c.properties| <= limits.properties
    && GoodProperties(c.properties, limits)
    && forall i :: 0 <= i < |c.properties| ==> !ContainsSeparator(c.properties[i].name)
  }

  /** White space that the writer's escapes leave bare. */
  predicate BareWhite(c: char)
  {
    IsWhite(c) && c != '\r' && c != '\n'
  }

  /** The property text neither begins nor ends with bare white space: not the first name, which is written as it
      is, and not the last value, in which only carriage returns and line feeds are escaped. */
  predicate EndsSurvive(ps: seq<Property>)
  {
    ps == [] ||
    var name, value := ps[0].name, ps[|ps| - 1].value;
    (name == "" || !IsWhite(name[0])) && (value == "" || !BareWhite(value[|value| - 1]))
  }

  /** What a writer must keep to for its command to be read back. */
  predicate Printable(c: RawCommand, limits: Limits, dynamic: Option<string>)
  {
    WellFormed(c, limits, dynamic) && EndsSurvive(c.properties)
  }

  /** Stop tokens: the only dynamic commands. */
  predicate TokenChar(c: char)
  {
    'a' <= c <= 'z' || 'A' <= c <= 'Z' || '0' <= c <= '9' || c == '-' || c == '_' || c == '.'
  }

  /** `valid_stop_token`. */
  predicate ValidStopToken(token: string, maximum: nat)
  {
    && 0 < |token| <= maximum && !IsRegistered(token) && !EqIgnoreCase(token, "pause-logging")
    && forall i :: 0 <= i < |token| ==> TokenChar(token[i])
  }

  predicate TokenName(name: string)
  {
    name != "" && forall i :: 0 <= i < |name| ==> TokenChar(name[i])
  }

  lemma LowerTokenChar(c: char, d: char)
    requires LowerChar(c) == LowerChar(d) && TokenChar(c)
    ensures TokenChar(d)
  {
  }

  lemma EqualToTokenName(a: string, b: string)
    requires TokenName(a) && EqIgnoreCase(a, b)
    ensures TokenName(b)
  {
    assert |a| == |Lower(a)| == |Lower(b)| == |b|;
    forall i | 0 <= i < |b|
      ensures TokenChar(b[i])
    {
      assert Lower(a)[i] == Lower(b)[i];
      LowerTokenChar(a[i], b[i]);
    }
  }

  lemma RegisteredIsTokenName(i: nat)
    requires i < |REGISTERED|
    ensures TokenName(REGISTERED[i])
  {
    if i < 6 { FirstRegistered(i); } else { LastRegistered(i); }
  }

  lemma FirstRegistered(i: nat)
    requires i < 6
    ensures TokenName(REGISTERED[i])
  {
    if i == 0 { assert TokenName("add-mask"); }
    else if i == 1 { assert TokenName("add-matcher"); }
    else if i == 2 { assert TokenName("debug"); }
    else if i == 3 { assert TokenName("echo"); }
    else if i == 4 { assert TokenName("endgroup"); }
    else { assert TokenName("error"); }
  }

  lemma LastRegistered(i: nat)
    requires 6 <= i < |REGISTERED|
    ensures TokenName(REGISTERED[i])
  {
    if i == 6 { assert TokenName("group"); }
    else if i == 7 { assert TokenName("notice"); }
    else if i == 8 { assert TokenName("remove-matcher"); }
    else if i == 9 { assert TokenName("stop-commands"); }
    else { assert TokenName("warning"); }
  }

  lemma RecognizedIsTokenName(name: string, dynamic: Option<string>)
    requires Recognized(name, dynamic) && (dynamic.Some? ==> TokenName(dynamic.value))
    ensures TokenName(name)
  {
    hide TokenName, EqIgnoreCase;
    if IsRegistered(name) {
      var i :| 0 <= i < |REGISTERED| && EqIgnoreCase(REGISTERED[i], name);
      RegisteredIsTokenName(i);
      EqualToTokenName(REGISTERED[i], name);
    } else {
      EqualToTokenName(dynamic.value, name);
    }
  }

  // ----- Reading what was printed -----

  lemma EscapedValue(v: string)
    ensures ',' !in EscapeProperty(v) && ':' !in EscapeProperty(v)
    ensures v != "" ==> EscapeProperty(v) != ""
  {
    assert PROPERTY_RULES[2].out == ':' && PROPERTY_RULES[3].out == ',';
    EscapedIsPlain(v, PROPERTY_RULES, ',');
    EscapedIsPlain(v, PROPERTY_RULES, ':');
  }

  lemma ReadPropertyText(p: Property)
    requires p.name != "" && ',' !in p.name && '=' !in p.name && p.value != ""
    ensures var text := PropertyText(p);
            && IsAssignment(text) && IndexOf(text, '=') == |p.name| && ',' !in text
            && text[..|p.name|] == p.name && UnescapeProperty(text[|p.name| + 1..]) == p.value
  {
    hide UnescapeProperty, EscapeProperty;
    var text, raw := PropertyText(p), EscapeProperty(p.value);
    EscapedValue(p.value);
    UnescapeOfEscape(p.value);
    assert text == p.name + ['='] + raw;
    IndexOfConcat(p.name, '=', raw);
    assert text[|p.name| + 1..] == raw;
  }

  lemma {:induction false} ParsePrintedPieces(ps: seq<Property>, k: nat, limits: Limits)
    requires k <= |ps| <= limits.properties && GoodProperties(ps, limits)
    ensures ParsePieces(PropertyTexts(ps[k..]), ps[..k], k, limits) == Ok(ps)
    decreases |ps| - k
  {
    hide PropertyText, IsAssignment, UnescapeProperty, Bytes, IndexOf, EqIgnoreCase;
    if k == |ps| {
      assert ps[k..] == [] && ps[..k] == ps;
    } else {
      var p, texts := ps[k], PropertyTexts(ps[k..]);
      assert GoodProperty(p, limits);
      ReadPropertyText(p);
      assert texts[0] == PropertyText(p);
      assert texts[1..] == PropertyTexts(ps[k + 1..]);
      assert Store(ps[..k], p.name, p.value) == ps[..k] + [p] == ps[..k + 1];
      ParsePrintedPieces(ps, k + 1, limits);
    }
  }

  /** Printed properties split into their texts. */
  lemma SplitPrinted(ps: seq<Property>)
    requires ps != [] && forall i :: 0 <= i < |ps| ==> ',' !in ps[i].name
    ensures Split(PrintProperties(ps), ',') == PropertyTexts(ps)
  {
    forall i | 0 <= i < |ps|
      ensures ',' !in PropertyTexts(ps)[i]
    {
      EscapedValue(ps[i].value);
    }
    SplitOfJoin(PropertyTexts(ps), ',');
  }

  lemma ParsePrintedProperties(ps: seq<Property>, limits: Limits)
    requires ps != [] && |ps| <= limits.properties && GoodProperties(ps, limits)
    ensures ParseProperties(PrintProperties(ps), limits) == Ok(ps)
  {
    hide ParsePieces, PrintProperties;
    assert forall i :: 0 <= i < |ps| ==> GoodProperty(ps[i], limits);
    SplitPrinted(ps);
    ParsePrintedPieces(ps, 0, limits);
    assert ps[0..] == ps && ps[..0] == [];
  }

  /** Every colon is followed by something else. */
  predicate Unseparated(s: string)
  {
    forall i :: 0 <= i < |s| && s[i] == ':' ==> i + 1 < |s| && s[i + 1] != ':'
  }

  lemma UnseparatedConcat(a: string, b: string)
    requires Unseparated(a) && Unseparated(b)
    ensures Unseparated(a + b)
  {
    forall i | 0 <= i < |a + b| && (a + b)[i] == ':'
      ensures i + 1 < |a + b| && (a + b)[i + 1] != ':'
    {
      if i < |a| {
        assert a[i] == ':';
      } else {
        assert b[i - |a|] == ':';
      }
    }
  }

  lemma UnseparatedText(p: Property)
    requires !ContainsSeparator(p.name)
    ensures Unseparated(PropertyText(p))
  {
    EscapedValue(p.value);
    var head := p.name + ['='];
    forall i | 0 <= i < |head| && head[i] == ':'
      ensures i + 1 < |head| && head[i + 1] != ':'
    {
      assert !At(p.name, "::", i);
      if i + 1 < |p.name| { assert p.name[i..i + 2] == [p.name[i], p.name[i + 1]]; }
    }
    UnseparatedConcat(head, EscapeProperty(p.value));
    assert PropertyText(p) == head + EscapeProperty(p.value);
  }

  lemma {:induction false} UnseparatedJoin(texts: seq<string>)
    requires forall i :: 0 <= i < |texts| ==> Unseparated(texts[i])
    ensures Unseparated(Join(texts, ','))
    decreases |texts|
  {
    hide Unseparated;
    if texts == [] {
      UnseparatedToken("");
    } else if |texts| > 1 {
      UnseparatedJoin(texts[1..]);
      UnseparatedToken(",");
      UnseparatedConcat([','], Join(texts[1..], ','));
      UnseparatedConcat(texts[0], [','] + Join(texts[1..], ','));
    }
  }

  lemma UnseparatedToken(s: string)
    requires ':' !in s
    ensures Unseparated(s)
  {
  }

  lemma UnseparatedInfo(c: RawCommand)
    requires TokenName(c.name)
    requires forall i :: 0 <= i < |c.properties| ==> !ContainsSeparator(c.properties[i].name)
    ensures Unseparated(Info(c))
  {
    hide Unseparated, Join;
    UnseparatedToken(c.name);
    forall i | 0 <= i < |c.properties|
      ensures Unseparated(PropertyTexts(c.properties)[i])
    {
      UnseparatedText(c.properties[i]);
    }
    UnseparatedJoin(PropertyTexts(c.properties));
    UnseparatedToken(" ");
    UnseparatedConcat([' '], PrintProperties(c.properties));
    UnseparatedConcat(c.name, [' '] + PrintProperties(c.properties));
  }

  lemma FindSeparator(info: string, raw: string)
    requires Unseparated(info)
    ensures Find(info + ("::" + raw), "::") == |info|
  {
    var s := info + ("::" + raw);
    assert s[|info|..|info| + 2] == "::";
    forall i | 0 <= i < |info|
      ensures !At(s, "::", i)
    {
      assert s[i..i + 2] == [s[i], s[i + 1]];
      assert info[i] == ':' ==> s[i + 1] == info[i + 1];
    }
    FindIs(s, "::", |info|);
  }

  /** A printed command splits into its information and its escaped data. */
  lemma ParsePrintedParts(c: RawCommand, limits: Limits, dynamic: Option<string>)
    requires Unseparated(Info(c))
    ensures ParseCommand(Print(c), limits, dynamic) == ParseParts(Info(c), EscapeData(c.data), limits, dynamic)
  {
    hide ParseParts, Info, EscapeData, Unseparated, Find;
    var line, info, raw := Print(c), Info(c), EscapeData(c.data);
    assert line[0] == ':' && !IsWhite(':');
    assert TrimStart(line) == line;
    assert line[..2] == "::";
    var rest := line[2..];
    assert rest == info + ("::" + raw);
    FindSeparator(info, raw);
    assert rest[..|info|] == info && rest[|info| + 2..] == raw;
  }

  /** The information of a printed command: its name, and its properties after trimming. */
  lemma ParsePrintedInfo(c: RawCommand, limits: Limits, dynamic: Option<string>)
    requires TokenName(c.name) && Recognized(c.name, dynamic) && |Bytes(c.name)| <= limits.nameBytes
    requires |Bytes(c.data)| <= limits.dataBytes
    ensures ParseParts(Info(c), EscapeData(c.data), limits, dynamic) ==
              match (if c.properties == [] then Ok([]) else ParseProperties(Trim(PrintProperties(c.properties)), limits))
              case Err(e) => Err(e)
              case Ok(ps) => Ok(Some(RawCommand(c.name, ps, c.data)))
  {
    hide ParseProperties, Recognized, Bytes, PrintProperties, Trim, UnescapeData, EscapeData, IndexOf;
    UnescapeOfEscape(c.data);
    var info, text := Info(c), PrintProperties(c.properties);
    assert ' ' !in c.name;
    if c.properties == [] {
      assert IndexOf(info, ' ') == |info| && info[..|info|] == info;
    } else {
      assert info == c.name + [' '] + text;
      IndexOfConcat(c.name, ' ', text);
      assert info[..|c.name|] == c.name && info[|c.name| + 1..] == text;
    }
  }

  lemma AssignmentParts(piece: string)
    requires IsAssignment(piece) && ',' !in piece
    ensures var k := IndexOf(piece, '=');
            && piece[..k] != "" && ',' !in piece[..k] && '=' !in piece[..k]
            && UnescapeProperty(piece[k + 1..]) != ""
  {
    hide IndexOf;
    var k := IndexOf(piece, '=');
    assert piece[k + 1..] != "";
  }

  lemma StoreKeepsGood(ps: seq<Property>, name: string, value: string, limits: Limits)
    requires GoodProperties(ps, limits) && GoodProperty(Property(name, value), limits)
    ensures GoodProperties(Store(ps, name, value), limits)
    ensures |ps| <= |Store(ps, name, value)| <= |ps| + 1
    ensures |Store(ps, name, value)| == |ps| + 1 ==> Store(ps, name, value) == ps + [Property(name, value)]
  {
    hide Bytes, EqIgnoreCase;
    var k := Position(ps, name);
    var qs := Store(ps, name, value);
    if k < |ps| {
      assert GoodProperty(ps[k], limits);
      assert forall i :: 0 <= i < |qs| ==> qs[i].name == ps[i].name;
    }
  }

  /** Parsed properties are well formed, distinct and within the limits. */
  lemma {:induction false} ParsedPiecesGood(pieces: seq<string>, ps: seq<Property>, count: nat, limits: Limits)
    requires GoodProperties(ps, limits) && |ps| <= count <= limits.properties
    requires forall i :: 0 <= i < |pieces| ==> ',' !in pieces[i]
    requires ParsePieces(pieces, ps, count, limits).Ok?
    ensures GoodProperties(ParsePieces(pieces, ps, count, limits).value, limits)
    ensures |ParsePieces(pieces, ps, count, limits).value| <= limits.properties
    decreases |pieces|
  {
    hide Store, GoodProperties, Bytes, IndexOf, UnescapeProperty;
    if pieces != [] {
      if pieces[0] == "" {
        ParsedPiecesGood(pieces[1..], ps, count, limits);
      } else if !IsAssignment(pieces[0]) {
        ParsedPiecesGood(pieces[1..], ps, count + 1, limits);
      } else {
        AssignmentParts(pieces[0]);
        var k := IndexOf(pieces[0], '=');
        var name, value := pieces[0][..k], UnescapeProperty(pieces[0][k + 1..]);
        StoreKeepsGood(ps, name, value, limits);
        ParsedPiecesGood(pieces[1..], Store(ps, name, value), count + 1, limits);
      }
    }
  }

  /** Every name occurs in some piece. */
  ghost predicate NamesFrom(ps: seq<Property>, source: string)
  {
    forall i :: 0 <= i < |ps| ==> IsSlice(ps[i].name, source)
  }

  ghost predicate IsSlice(s: string, source: string)
  {
    exists a :: At(source, s, a)
  }

  lemma SliceOfSlice(s: string, m: string, source: string)
    requires IsSlice(s, m) && IsSlice(m, source)
    ensures IsSlice(s, source)
  {
    var a :| At(m, s, a);
    var b :| At(source, m, b);
    forall i | 0 <= i < |s|
      ensures source[b + a + i] == s[i]
    {
      assert s[i] == m[a..a + |s|][i] == m[a + i] == source[b..b + |m|][a + i];
    }
    assert source[b + a..b + a + |s|] == s;
    assert At(source, s, b + a);
  }

  lemma SliceIs(source: string, a: nat, b: nat)
    requires a <= b <= |source|
    ensures IsSlice(source[a..b], source)
  {
    assert At(source, source[a..b], a);
  }

  lemma {:induction false} SplitSlices(s: string, sep: char)
    ensures forall i :: 0 <= i < |Split(s, sep)| ==> IsSlice(Split(s, sep)[i], s)
    decreases |s|
  {
    hide IsSlice;
    var k := IndexOf(s, sep);
    if k == |s| {
      SliceIs(s, 0, |s|);
      assert s[0..|s|] == s;
    } else {
      SplitSlices(s[k + 1..], sep);
      SliceIs(s, 0, k);
      SliceIs(s, k + 1, |s|);
      assert s[0..k] == s[..k] && s[k + 1..|s|] == s[k + 1..];
      forall i | 0 <= i < |Split(s, sep)|
        ensures IsSlice(Split(s, sep)[i], s)
      {
        if i > 0 { SliceOfSlice(Split(s[k + 1..], sep)[i - 1], s[k + 1..], s); }
      }
    }
  }

  lemma {:induction false} TrimStartSlice(s: string) returns (a: nat)
    ensures a <= |s| && TrimStart(s) == s[a..] && AllWhite(s[..a])
  {
    if s != "" && IsWhite(s[0]) {
      var b := TrimStartSlice(s[1..]);
      a := b + 1;
      assert s[1..][b..] == s[a..];
      assert s[..a] == [s[0]] + s[1..][..b];
    } else {
      a := 0;
    }
  }

  lemma {:induction false} TrimEndSlice(s: string)
    ensures AllWhite(s[|TrimEnd(s)|..])
  {
    var n := |s| - 1;
    if s != "" && IsWhite(s[n]) {
      TrimEndSlice(s[..n]);
      var k := |TrimEnd(s)|;
      assert s[k..] == s[..n][k..] + [s[n]];
    }
  }

  /** Trimming removes white space at both ends and nothing else. */
  lemma TrimWhite(t: string) returns (a: nat, d: nat)
    ensures a + d <= |t| && Trim(t) == t[a..|t| - d]
    ensures AllWhite(t[..a]) && AllWhite(t[|t| - d..])
  {
    hide AllWhite, TrimStart, TrimEnd;
    a := TrimStartSlice(t);
    var tail, kept := t[a..], TrimEnd(t[a..]);
    TrimEndSlice(tail);
    d := |t| - a - |kept|;
    assert kept == tail[..|kept|];
    assert t[a..|t| - d] == tail[..|kept|];
    assert t[|t| - d..] == tail[|kept|..];
  }

  /** `r` is `t` without the white space at its ends. */
  ghost predicate IsTrim(t: string, r: string)
  {
    exists a, b :: 0 <= a <= b <= |t| && TrimsTo(t, a, b) && r == t[a..b]
  }

  predicate TrimsTo(t: string, a: nat, b: nat)
    requires a <= b <= |t|
  {
    AllWhite(t[..a]) && AllWhite(t[b..]) && (a < b ==> !IsWhite(t[a]) && !IsWhite(t[b - 1]))
  }

  lemma TrimExactly(t: string, r: string)
    ensures IsTrim(t, r) <==> r == Trim(t)
  {
    var a, d := TrimWhite(t);
    assert TrimsTo(t, a, |t| - d) by {
      assert TrimEnd(TrimStart(t)) <= TrimStart(t);
    }
    if IsTrim(t, r) {
      var b, c :| 0 <= b <= c <= |t| && TrimsTo(t, b, c) && r == t[b..c];
      TrimIsUnique(t, a, |t| - d, b, c);
    }
  }

  lemma TrimIsUnique(t: string, a: nat, b: nat, c: nat, d: nat)
    requires a <= b <= |t| && c <= d <= |t| && TrimsTo(t, a, b) && TrimsTo(t, c, d)
    ensures t[a..b] == t[c..d]
  {
    WhiteEnds(t, a, b);
    WhiteEnds(t, c, d);
    if a < b {
      assert c <= a && b <= d;
    }
    if c < d {
      assert a <= c && d <= b;
    }
  }

  lemma TrimSlice(s: string)
    ensures IsSlice(Trim(s), s)
  {
    hide Trim, IsSlice;
    var a, d := TrimWhite(s);
    SliceIs(s, a, |s| - d);
  }

  lemma StoreNames(ps: seq<Property>, name: string, value: string, source: string)
    requires NamesFrom(ps, source) && IsSlice(name, source)
    ensures NamesFrom(Store(ps, name, value), source)
  {
    hide IsSlice, EqIgnoreCase;
  }

  lemma {:induction false} ParsedNamesAreSlices(
      pieces: seq<string>, ps: seq<Property>, count: nat, limits: Limits, source: string)
    requires NamesFrom(ps, source) && (forall i :: 0 <= i < |pieces| ==> IsSlice(pieces[i], source))
    requires ParsePieces(pieces, ps, count, limits).Ok?
    ensures NamesFrom(ParsePieces(pieces, ps, count, limits).value, source)
    decreases |pieces|
  {
    hide Store, NamesFrom, IsSlice, Bytes, IndexOf, UnescapeProperty;
    if pieces != [] {
      if pieces[0] == "" {
        ParsedNamesAreSlices(pieces[1..], ps, count, limits, source);
      } else if !IsAssignment(pieces[0]) {
        ParsedNamesAreSlices(pieces[1..], ps, count + 1, limits, source);
      } else {
        var k := IndexOf(pieces[0], '=');
        var name, value := pieces[0][..k], UnescapeProperty(pieces[0][k + 1..]);
        SliceIs(pieces[0], 0, k);
        assert pieces[0][0..k] == name;
        SliceOfSlice(name, pieces[0], source);
        StoreNames(ps, name, value, source);
        ParsedNamesAreSlices(pieces[1..], Store(ps, name, value), count + 1, limits, source);
      }
    }
  }

  lemma SliceUnseparated(s: string, source: string)
    requires IsSlice(s, source) && forall i :: 0 <= i < |source| ==> !At(source, "::", i)
    ensures !ContainsSeparator(s)
  {
    var a :| At(source, s, a);
    forall i | 0 <= i < |s|
      ensures !At(s, "::", i)
    {
      assert !At(source, "::", a + i);
      if i + 2 <= |s| {
        assert s[i] == source[a..a + |s|][i] && s[i + 1] == source[a..a + |s|][i + 1];
        assert source[a + i..a + i + 2] == s[i..i + 2];
      }
    }
  }

  lemma ParsedPropertiesGood(text: string, source: string, limits: Limits)
    requires ParseProperties(Trim(text), limits).Ok? && IsSlice(text, source)
    requires forall i :: 0 <= i < |source| ==> !At(source, "::", i)
    ensures var ps := ParseProperties(Trim(text), limits).value;
            && GoodProperties(ps, limits) && |ps| <= limits.properties
            && forall i :: 0 <= i < |ps| ==> !ContainsSeparator(ps[i].name)
  {
    hide ParsePieces, Split, IsSlice, ContainsSeparator;
    var trimmed := Trim(text);
    var pieces := Split(trimmed, ',');
    ParsedPiecesGood(pieces, [], 0, limits);
    TrimSlice(text);
    SliceOfSlice(trimmed, text, source);
    SplitSlices(trimmed, ',');
    forall i | 0 <= i < |pieces|
      ensures IsSlice(pieces[i], source)
    {
      SliceOfSlice(pieces[i], trimmed, source);
    }
    ParsedNamesAreSlices(pieces, [], 0, limits, source);
    var ps := ParsePieces(pieces, [], 0, limits).value;
    forall i | 0 <= i < |ps|
      ensures !ContainsSeparator(ps[i].name)
    {
      SliceUnseparated(ps[i].name, source);
    }
  }

  /** Every command the parser returns is well formed. */
  lemma ParsedIsWellFormed(line: string, limits: Limits, dynamic: Option<string>, c: RawCommand)
    requires ParseCommand(line, limits, dynamic) == Ok(Some(c))
    ensures WellFormed(c, limits, dynamic)
  {
    hide Recognized, Bytes, ParseProperties, Trim, UnescapeData, IndexOf, ContainsSeparator, GoodProperties;
    var rest := TrimStart(line)[2..];
    var separator := Find(rest, "::");
    var info := rest[..separator];
    var space := IndexOf(info, ' ');
    if 0 < space < |info| {
      SliceIs(info, space + 1, |info|);
      assert info[space + 1..|info|] == info[space + 1..];
      forall i | 0 <= i < |info|
        ensures !At(info, "::", i)
      {
        assert !At(rest, "::", i);
        if i + 2 <= |info| { assert info[i..i + 2] == rest[i..i + 2]; }
      }
      ParsedPropertiesGood(info[space + 1..], info, limits);
    } else {
      NoPropertiesGood(limits);
    }
  }

  lemma NoPropertiesGood(limits: Limits)
    ensures GoodProperties([], limits)
  {
  }

  // ----- Exactly which commands survive -----

  function Assigned(piece: string): Property
    requires IsAssignment(piece)
  {
    var k := IndexOf(piece, '=');
    Property(piece[..k], UnescapeProperty(piece[k + 1..]))
  }

  lemma StoreGrows(ps: seq<Property>, name: string, value: string)
    ensures |Store(ps, name, value)| <= |ps| + 1
    ensures |Store(ps, name, value)| == |ps| + 1 ==> Store(ps, name, value) == ps + [Property(name, value)]
  {
    hide EqIgnoreCase;
  }

  /** Each piece adds at most one property; when all do, the properties are the pieces in order. */
  lemma {:induction false} OnePropertyEach(pieces: seq<string>, ps: seq<Property>, count: nat, limits: Limits)
    requires ParsePieces(pieces, ps, count, limits).Ok?
    ensures var out := ParsePieces(pieces, ps, count, limits).value;
            && |out| <= |ps| + |pieces|
            && (|out| == |ps| + |pieces| ==>
                  && (forall i :: 0 <= i < |ps| ==> out[i] == ps[i])
                  && forall i :: 0 <= i < |pieces| ==> IsAssignment(pieces[i]) && out[|ps| + i] == Assigned(pieces[i]))
    decreases |pieces|
  {
    hide Store, Bytes, IndexOf, UnescapeProperty;
    if pieces != [] {
      if pieces[0] == "" {
        OnePropertyEach(pieces[1..], ps, count, limits);
      } else if !IsAssignment(pieces[0]) {
        OnePropertyEach(pieces[1..], ps, count + 1, limits);
      } else {
        var p := Assigned(pieces[0]);
        var qs := Store(ps, p.name, p.value);
        StoreGrows(ps, p.name, p.value);
        OnePropertyEach(pieces[1..], qs, count + 1, limits);
        var out := ParsePieces(pieces, ps, count, limits).value;
        if |out| == |ps| + |pieces| {
          assert qs == ps + [p];
          forall i | 0 <= i < |pieces|
            ensures IsAssignment(pieces[i]) && out[|ps| + i] == Assigned(pieces[i])
          {
            if i > 0 { assert pieces[i] == pieces[1..][i - 1] && |ps| + i == |qs| + (i - 1); }
          }
        }
      }
    }
  }

  lemma JoinDropFront(parts: seq<string>, a: nat)
    requires |parts| >= 1 && a <= |parts[0]|
    ensures Join(parts[0 := parts[0][a..]], ',') == Join(parts, ',')[a..]
  {
    var cut := parts[0 := parts[0][a..]];
    assert cut[1..] == parts[1..];
  }

  lemma {:induction false} JoinDropBack(parts: seq<string>, d: nat)
    requires |parts| >= 1 && d <= |parts[|parts| - 1]|
    ensures |Join(parts, ',')| >= d
    ensures var last := parts[|parts| - 1];
            Join(parts[|parts| - 1 := last[..|last| - d]], ',') == Join(parts, ',')[..|Join(parts, ',')| - d]
    decreases |parts|
  {
    var last := parts[|parts| - 1];
    var cut := parts[|parts| - 1 := last[..|last| - d]];
    if |parts| > 1 {
      JoinDropBack(parts[1..], d);
      assert cut[1..] == parts[1..][|parts[1..]| - 1 := last[..|last| - d]];
      var head, tail := parts[0] + [','], Join(parts[1..], ',');
      assert Join(parts, ',') == head + tail;
      assert Join(cut, ',') == head + tail[..|tail| - d];
      assert (head + tail)[..|head + tail| - d] == head + tail[..|tail| - d];
    }
  }

  lemma {:induction false} DecodeTrailing(s: string, k: nat, rules: seq<Rule>)
    requires k <= |s|
    requires forall i, j :: k <= i < |s| && 0 <= j < |rules| ==> rules[j].first != s[i] && rules[j].second != s[i]
    ensures Decode(s, rules) == Decode(s[..k], rules) + s[k..]
    decreases |s| - k
  {
    if k < |s| {
      DecodeTrailing(s, k + 1, rules);
      assert s[..k + 1] == s[..k] + [s[k]];
      DecodeSnoc(s[..k], rules, s[k]);
      assert s[k..] == [s[k]] + s[k + 1..];
    } else {
      assert s[..k] == s && s[k..] == "";
    }
  }

  /** Trailing white space is not part of any escape. */
  lemma UnescapeTrailing(s: string, k: nat)
    requires k <= |s| && AllWhite(s[k..])
    ensures UnescapeProperty(s) == UnescapeProperty(s[..k]) + s[k..]
  {
    UnescapePropertyIsOnePass(s);
    UnescapePropertyIsOnePass(s[..k]);
    forall i, j | k <= i < |s| && 0 <= j < |PROPERTY_RULES|
      ensures PROPERTY_RULES[j].first != s[i] && PROPERTY_RULES[j].second != s[i]
    {
      assert IsWhite(s[k..][i - k]);
      assert !IsWhite('0') && !IsWhite('2') && !IsWhite('3') && !IsWhite('5');
      assert !IsWhite('A') && !IsWhite('C') && !IsWhite('D');
    }
    DecodeTrailing(s, k, PROPERTY_RULES);
  }

  /** A piece cut on both sides of its equals sign. */
  lemma CutPiece(name: string, raw: string, a: nat, k: nat)
    requires '=' !in name && a <= |name| && k <= |raw|
    requires IsAssignment(name[a..] + (['='] + raw[..k]))
    ensures Assigned(name[a..] + (['='] + raw[..k])) == Property(name[a..], UnescapeProperty(raw[..k]))
  {
    hide UnescapeProperty, IndexOf;
    var piece := name[a..] + (['='] + raw[..k]);
    assert piece == name[a..] + ['='] + raw[..k];
    assert '=' !in name[a..];
    IndexOfConcat(name[a..], '=', raw[..k]);
    assert piece[..|name[a..]|] == name[a..] && piece[|name[a..]| + 1..] == raw[..k];
  }

  /** How far trimming can cut into the printed properties: into the first name and the last raw value. */
  lemma TrimCuts(ps: seq<Property>) returns (a: nat, d: nat)
    requires ps != []
    ensures a <= |ps[0].name| && d <= |EscapeProperty(ps[|ps| - 1].value)|
    ensures var t := PrintProperties(ps);
            && a + d <= |t| && Trim(t) == t[a..|t| - d]
            && AllWhite(t[|t| - d..])
  {
    hide EscapeProperty, PrintProperties, Trim, IsWhite;
    var t := PrintProperties(ps);
    FirstEquals(ps);
    LastEquals(ps);
    a, d := TrimWhite(t);
    EqualsIsNotWhite();
    var first, last := |ps[0].name|, |t| - |EscapeProperty(ps[|ps| - 1].value)| - 1;
    assert t[first] == '=' && t[last] == '=';
    WhiteEnds(t, a, |t| - d);
  }

  lemma WhiteEnds(t: string, a: nat, b: nat)
    requires a <= |t| && b <= |t| && AllWhite(t[..a]) && AllWhite(t[b..])
    ensures forall i :: 0 <= i < |t| && (i < a || b <= i) ==> IsWhite(t[i])
  {
    hide IsWhite;
    forall i | 0 <= i < |t| && (i < a || b <= i)
      ensures IsWhite(t[i])
    {
      if i < a {
        assert t[i] == t[..a][i];
      } else {
        assert t[i] == t[b..][i - b];
      }
    }
  }

  lemma EqualsIsNotWhite()
    ensures !IsWhite('=')
  {
  }

  lemma FirstEquals(ps: seq<Property>)
    requires ps != []
    ensures |ps[0].name| < |PrintProperties(ps)| && PrintProperties(ps)[|ps[0].name|] == '='
  {
    hide EscapeProperty;
    assert PropertyTexts(ps)[0] == PropertyText(ps[0]);
  }

  lemma LastEquals(ps: seq<Property>)
    requires ps != []
    ensures var t, raw := PrintProperties(ps), EscapeProperty(ps[|ps| - 1].value);
            && |raw| < |t| && t[|t| - |raw| - 1] == '=' && t[|t| - |raw|..] == raw
  {
    hide EscapeProperty;
    var texts, p := PropertyTexts(ps), ps[|ps| - 1];
    var raw, t := EscapeProperty(p.value), PrintProperties(ps);
    var text := texts[|ps| - 1];
    assert text == PropertyText(p);
    JoinEndsWith(texts);
    assert t[|t| - |text|..] == text;
    assert text[|text| - |raw| - 1] == '=' && text[|text| - |raw|..] == raw;
    assert t[|t| - |raw| - 1] == t[|t| - |text|..][|text| - |raw| - 1];
    assert t[|t| - |raw|..] == t[|t| - |text|..][|text| - |raw|..];
  }

  lemma {:induction false} JoinEndsWith(parts: seq<string>)
    requires |parts| >= 1
    ensures var last, t := parts[|parts| - 1], Join(parts, ',');
            |last| <= |t| && t[|t| - |last|..] == last
    decreases |parts|
  {
    if |parts| > 1 {
      JoinEndsWith(parts[1..]);
      var last, tail := parts[|parts| - 1], Join(parts[1..], ',');
      var t := Join(parts, ',');
      assert t == (parts[0] + [',']) + tail;
      assert t[|t| - |last|..] == tail[|tail| - |last|..];
    }
  }

  /** The pieces left after cutting the first name by `a` and the last raw value by `d`. */
  function CutTexts(ps: seq<Property>, a: nat, d: nat): (r: seq<string>)
    requires ps != [] && a <= |ps[0].name| && d <= |EscapeProperty(ps[|ps| - 1].value)|
    ensures |r| == |ps|
  {
    seq(|ps|, i requires 0 <= i < |ps| =>
      var raw := EscapeProperty(ps[i].value);
      ps[i].name[if i == 0 then a else 0..] + (['='] + raw[..if i == |ps| - 1 then |raw| - d else |raw|]))
  }

  lemma SliceText(name: string, raw: string, c: nat, e: nat)
    requires c <= |name| && e <= |raw|
    ensures var text := name + (['='] + raw);
            name[c..] + (['='] + raw[..|raw| - e]) == text[c..|text| - e]
  {
  }

  lemma CutTextAt(ps: seq<Property>, a: nat, d: nat, i: nat)
    requires ps != [] && a <= |ps[0].name| && d <= |EscapeProperty(ps[|ps| - 1].value)| && i < |ps|
    ensures var text, c, e := PropertyText(ps[i]), if i == 0 then a else 0, if i == |ps| - 1 then d else 0;
            c + e <= |text| && CutTexts(ps, a, d)[i] == text[c..|text| - e]
  {
    hide EscapeProperty;
    SliceText(ps[i].name, EscapeProperty(ps[i].value), if i == 0 then a else 0, if i == |ps| - 1 then d else 0);
  }

  lemma JoinCutTexts(ps: seq<Property>, a: nat, d: nat)
    requires ps != [] && a <= |ps[0].name| && d <= |EscapeProperty(ps[|ps| - 1].value)|
    ensures var t := PrintProperties(ps);
            a + d <= |t| && Join(CutTexts(ps, a, d), ',') == t[a..|t| - d]
  {
    hide Join, EscapeProperty, CutTexts, PropertyText, PropertyTexts;
    var texts, t, n := PropertyTexts(ps), PrintProperties(ps), |ps|;
    assert a + (if n == 1 then d else 0) <= |texts[0]| && d <= |texts[n - 1]| by {
      CutTextAt(ps, a, d, 0);
      CutTextAt(ps, a, d, n - 1);
    }
    var front := texts[0 := texts[0][a..]];
    FirstEquals(ps);
    JoinDropFront(texts, a);
    var last := front[n - 1];
    assert |last| >= d;
    JoinDropBack(front, d);
    var both := front[n - 1 := last[..|last| - d]];
    forall i | 0 <= i < n
      ensures both[i] == CutTexts(ps, a, d)[i]
    {
      CutTextAt(ps, a, d, i);
      var text := texts[i];
      assert text[0..] == text && text[..|text|] == text;
      assert i == 0 && n == 1 ==> text[a..][..|text[a..]| - d] == text[a..|text| - d];
    }
    assert both == CutTexts(ps, a, d);
    assert t[a..][..|t[a..]| - d] == t[a..|t| - d];
  }

  lemma CutTextsUnseparated(ps: seq<Property>, a: nat, d: nat, limits: Limits)
    requires ps != [] && a <= |ps[0].name| && d <= |EscapeProperty(ps[|ps| - 1].value)| && GoodProperties(ps, limits)
    ensures forall i :: 0 <= i < |ps| ==> ',' !in CutTexts(ps, a, d)[i]
  {
    hide EscapeProperty, Bytes;
    forall i | 0 <= i < |ps|
      ensures ',' !in CutTexts(ps, a, d)[i]
    {
      EscapedValue(ps[i].value);
      assert GoodProperty(ps[i], limits);
    }
  }

  /** If the trimmed text still denotes all properties, trimming removed nothing. */
  lemma TrimMustBeIdle(ps: seq<Property>, limits: Limits)
    requires ps != [] && GoodProperties(ps, limits)
    requires ParseProperties(Trim(PrintProperties(ps)), limits) == Ok(ps)
    ensures Trim(PrintProperties(ps)) == PrintProperties(ps)
  {
    hide ParsePieces, EscapeProperty, Join, Split, Trim, IsAssignment, Assigned, PrintProperties, CutTexts, GoodProperties, AllWhite;
    var a, d := TrimCuts(ps);
    var t, n := PrintProperties(ps), |ps|;
    JoinCutTexts(ps, a, d);
    var texts := CutTexts(ps, a, d);
    CutTextsUnseparated(ps, a, d, limits);
    SplitOfJoin(texts, ',');
    OnePropertyEach(texts, [], 0, limits);
    assert IsAssignment(texts[0]) && ps[0] == Assigned(texts[0]);
    assert IsAssignment(texts[n - 1]) && ps[n - 1] == Assigned(texts[n - 1]);
    NamesUnassigned(ps, limits);
    FirstCut(ps, a, d, limits);
    LastCut(ps, a, d, limits);
    assert t[0..|t|] == t;
  }

  lemma NamesUnassigned(ps: seq<Property>, limits: Limits)
    requires GoodProperties(ps, limits)
    ensures forall i :: 0 <= i < |ps| ==> '=' !in ps[i].name
  {
    hide Bytes;
  }

  lemma FirstCut(ps: seq<Property>, a: nat, d: nat, limits: Limits)
    requires ps != [] && a <= |ps[0].name| && d <= |EscapeProperty(ps[|ps| - 1].value)| && '=' !in ps[0].name
    requires IsAssignment(CutTexts(ps, a, d)[0]) && ps[0] == Assigned(CutTexts(ps, a, d)[0])
    ensures a == 0
  {
    hide EscapeProperty, UnescapeProperty, IsAssignment, Assigned;
    var raw := EscapeProperty(ps[0].value);
    var k := if |ps| == 1 then |raw| - d else |raw|;
    assert CutTexts(ps, a, d)[0] == ps[0].name[a..] + (['='] + raw[..k]);
    CutPiece(ps[0].name, raw, a, k);
    assert |ps[0].name[a..]| == |ps[0].name| - a;
  }

  lemma LastCut(ps: seq<Property>, a: nat, d: nat, limits: Limits)
    requires ps != [] && a <= |ps[0].name| && d <= |EscapeProperty(ps[|ps| - 1].value)| && '=' !in ps[|ps| - 1].name
    requires var t := PrintProperties(ps); d <= |t| && AllWhite(t[|t| - d..])
    requires IsAssignment(CutTexts(ps, a, d)[|ps| - 1]) && ps[|ps| - 1] == Assigned(CutTexts(ps, a, d)[|ps| - 1])
    ensures d == 0
  {
    hide EscapeProperty, UnescapeProperty, IsAssignment, Assigned, PrintProperties;
    var n, p := |ps|, ps[|ps| - 1];
    var raw, t := EscapeProperty(p.value), PrintProperties(ps);
    var cut := if n == 1 then a else 0;
    assert CutTexts(ps, a, d)[n - 1] == p.name[cut..] + (['='] + raw[..|raw| - d]);
    CutPiece(p.name, raw, cut, |raw| - d);
    LastEquals(ps);
    assert raw[|raw| - d..] == t[|t| - |raw|..][|raw| - d..] == t[|t| - d..];
    UnescapeTrailing(raw, |raw| - d);
    UnescapeOfEscape(p.value);
    assert p.value == p.value + raw[|raw| - d..];
    assert |p.value| == |p.value| + d;
  }

  // ----- Exactly the printable commands are read back -----

  lemma {:induction false} EscapeSnoc(s: string, w: char, rules: seq<Rule>)
    ensures Escape(s + [w], rules) == Escape(s, rules) + EscapeChar(w, rules)
  {
    hide EscapeChar;
    if s == "" {
      assert s + [w] == [w] && [w][1..] == "";
      assert EscapeChar(w, rules) + "" == "" + EscapeChar(w, rules);
    } else {
      assert (s + [w])[1..] == s[1..] + [w];
      EscapeSnoc(s[1..], w, rules);
      assert EscapeChar(s[0], rules) + (Escape(s[1..], rules) + EscapeChar(w, rules))
             == EscapeChar(s[0], rules) + Escape(s[1..], rules) + EscapeChar(w, rules);
    }
  }

  /** The last character of an escaped character is white space exactly when it is bare white space. */
  lemma EscapedTail(w: char)
    ensures var e := EscapeChar(w, PROPERTY_RULES); IsWhite(e[|e| - 1]) <==> BareWhite(w)
  {
  }

  lemma RawTail(value: string)
    requires value != ""
    ensures var raw := EscapeProperty(value); raw != "" && (IsWhite(raw[|raw| - 1]) <==> BareWhite(value[|value| - 1]))
  {
    hide EscapeChar, IsWhite, BareWhite, Escape;
    var front, w := value[..|value| - 1], value[|value| - 1];
    assert value == front + [w];
    EscapeSnoc(front, w, PROPERTY_RULES);
    EscapedTail(w);
  }

  lemma TrimIsIdle(t: string)
    requires t != ""
    ensures Trim(t) == t <==> !IsWhite(t[0]) && !IsWhite(t[|t| - 1])
  {
    hide IsWhite;
    var a, d := TrimWhite(t);
    if Trim(t) == t {
      assert |TrimStart(t)| == |t|;
    }
  }

  /** The parser's trimming leaves the printed properties alone exactly when their ends survive. */
  lemma TrimIsIdleExactly(ps: seq<Property>, limits: Limits)
    requires ps != [] && GoodProperties(ps, limits)
    ensures Trim(PrintProperties(ps)) == PrintProperties(ps) <==> EndsSurvive(ps)
  {
    hide Trim, PrintProperties, IsWhite, BareWhite, Escape;
    var t, first, last := PrintProperties(ps), ps[0], ps[|ps| - 1];
    assert GoodProperty(first, limits) && GoodProperty(last, limits);
    var raw := EscapeProperty(last.value);
    FirstCharacter(ps);
    LastEquals(ps);
    RawTail(last.value);
    assert t[|t| - 1] == t[|t| - |raw|..][|raw| - 1];
    TrimIsIdle(t);
  }

  lemma FirstCharacter(ps: seq<Property>)
    requires ps != [] && ps[0].name != ""
    ensures PrintProperties(ps) != "" && PrintProperties(ps)[0] == ps[0].name[0]
  {
    hide EscapeProperty;
    assert PropertyTexts(ps)[0] == PropertyText(ps[0]);
  }

  /** Every printable command is read back exactly. */
  lemma ParseOfPrint(c: RawCommand, limits: Limits, dynamic: Option<string>)
    requires Printable(c, limits, dynamic) && (dynamic.Some? ==> TokenName(dynamic.value))
    ensures ParseCommand(Print(c), limits, dynamic) == Ok(Some(c))
  {
    hide Recognized, ParseCommand, ParseParts, ParseProperties, PrintProperties, Info, Trim, ContainsSeparator, EndsSurvive;
    RecognizedIsTokenName(c.name, dynamic);
    UnseparatedInfo(c);
    ParsePrintedParts(c, limits, dynamic);
    ParsePrintedInfo(c, limits, dynamic);
    if c.properties != [] {
      TrimIsIdleExactly(c.properties, limits);
      ParsePrintedProperties(c.properties, limits);
    }
  }

  /** A command is read back from its printed form exactly when it is printable. */
  lemma ParseOfPrintExact(c: RawCommand, limits: Limits, dynamic: Option<string>)
    requires dynamic.Some? ==> TokenName(dynamic.value)
    ensures ParseCommand(Print(c), limits, dynamic) == Ok(Some(c)) <==> Printable(c, limits, dynamic)
  {
    hide Printable, ParseCommand, Print;
    if Printable(c, limits, dynamic) {
      ParseOfPrint(c, limits, dynamic);
    }
    if ParseCommand(Print(c), limits, dynamic) == Ok(Some(c)) {
      SurvivingIsPrintable(c, limits, dynamic);
    }
  }

  lemma SurvivingIsPrintable(c: RawCommand, limits: Limits, dynamic: Option<string>)
    requires dynamic.Some? ==> TokenName(dynamic.value)
    requires ParseCommand(Print(c), limits, dynamic) == Ok(Some(c))
    ensures Printable(c, limits, dynamic)
  {
    hide Recognized, ParseCommand, ParseParts, ParseProperties, PrintProperties, Info, Trim, ContainsSeparator, Bytes, Print;
    ParsedIsWellFormed(Print(c), limits, dynamic, c);
    RecognizedIsTokenName(c.name, dynamic);
    UnseparatedInfo(c);
    ParsePrintedParts(c, limits, dynamic);
    ParsePrintedInfo(c, limits, dynamic);
    if c.properties != [] {
      hide EndsSurvive;
      TrimMustBeIdle(c.properties, limits);
      TrimIsIdleExactly(c.properties, limits);
    }
  }

  /** The writer's escapes do not protect trailing white space of the last property, other than a carriage return or a
      line feed: no such command survives. */
  lemma TrailingSpaceIsLost(c: RawCommand, value: string, w: char, limits: Limits, dynamic: Option<string>)
    requires dynamic.Some? ==> TokenName(dynamic.value)
    requires BareWhite(w) && c.properties != [] && c.properties[|c.properties| - 1].value == value + [w]
    ensures ParseCommand(Print(c), limits, dynamic) != Ok(Some(c))
  {
    hide ParseCommand, Print, WellFormed, BareWhite;
    ParseOfPrintExact(c, limits, dynamic);
  }
}

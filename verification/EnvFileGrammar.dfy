/** The language of name/value command files: exactly which texts are accepted, and what they denote
    (crates/automata-ci-actions-runtime/src/file_command.rs). */
module EnvFileGrammar {

  import opened Text
  import opened NameValues
  import opened EnvFile

  /** A line of the file and the width of its terminator. */
  datatype TextLine = TextLine(content: string, newline: nat)

  /** What the file is made of: blank lines, assignments, and heredocs with their header, body lines and closing line. */
  datatype Piece =
    | Blank(newline: nat)
    | Assignment(name: string, value: string, newline: nat)
    | Here(name: string, delimiter: string, newline: nat, body: seq<TextLine>, close: nat)

  function LineText(l: TextLine): string
  {
    l.content + Terminator(l.newline)
  }

  function BodyText(body: seq<TextLine>): string
  {
    if body == [] then "" else LineText(body[0]) + BodyText(body[1..])
  }

  /** The lines of a body as they stand, without the terminator of the last. */
  function BodyOf(body: seq<TextLine>): string
  {
    if body == [] then "" else if |body| == 1 then body[0].content else LineText(body[0]) + BodyOf(body[1..])
  }

  function PieceText(p: Piece): string
  {
    match p
    case Blank(newline) => Terminator(newline)
    case Assignment(name, value, newline) => name + "=" + value + Terminator(newline)
    case Here(name, delimiter, newline, body, close) =>
      name + "<<" + delimiter + Terminator(newline) + (BodyText(body) + (delimiter + Terminator(close)))
  }

  function FileText(pieces: seq<Piece>): string
  {
    if pieces == [] then "" else PieceText(pieces[0]) + FileText(pieces[1..])
  }

  /** The pairs in order; blank lines denote nothing. */
  function Denotes(pieces: seq<Piece>): seq<NameValue>
  {
    if pieces == [] then []
    else match pieces[0]
      case Blank(_) => Denotes(pieces[1..])
      case Assignment(name, value, _) => [NameValue(name, value)] + Denotes(pieces[1..])
      case Here(name, _, _, body, _) => [NameValue(name, BodyOf(body))] + Denotes(pieces[1..])
  }

  /** A line is ended by a line feed, on Windows also by a carriage return and a line feed; only the last line of the
      file may be unended, and a carriage return before a line feed never belongs to the line on Windows. */
  predicate IsLine(content: string, newline: nat, platform: Platform, last: bool)
  {
    && '\n' !in content && newline <= 2
    && (newline == 0 ==> last && content != "")
    && (newline == 1 ==> platform == Unix || !EndsWithCr(content))
    && (newline == 2 ==> platform == Windows)
  }

  /** `name` is all of `content` before its first marker: no `=` and no `<<` begins in it. */
  predicate BeforeMarker(name: string, content: string)
  {
    |name| <= |content| && content[..|name|] == name && '=' !in name && forall i :: 0 <= i < |name| ==> !At(content, "<<", i)
  }

  predicate GoodPiece(p: Piece, platform: Platform, limits: Limits, last: bool)
  {
    match p
    case Blank(newline) => newline > 0 && IsLine("", newline, platform, last)
    case Assignment(name, value, newline) =>
      var content := name + "=" + value;
      && IsLine(content, newline, platform, last) && BeforeMarker(name, content) && |content| <= limits.line
      && 0 < |name| <= limits.name && |value| <= limits.value
    case Here(name, delimiter, newline, body, close) =>
      var content := name + "<<" + delimiter;
      && newline > 0 && IsLine(content, newline, platform, last) && BeforeMarker(name, content) && |content| <= limits.line
      && 0 < |name| <= limits.name && 0 < |delimiter| <= limits.name
      && GoodBody(body, delimiter, platform, limits) && |BodyOf(body)| <= limits.value
      && IsLine(delimiter, close, platform, last)
  }

  /** Body lines are ended, within the line limit, and none of them is the delimiter. */
  predicate GoodBody(body: seq<TextLine>, delimiter: string, platform: Platform, limits: Limits)
  {
    forall i :: 0 <= i < |body| ==>
      && body[i].newline > 0 && IsLine(body[i].content, body[i].newline, platform, false)
      && |body[i].content| <= limits.line && body[i].content != delimiter
  }

  predicate GoodPieces(pieces: seq<Piece>, platform: Platform, limits: Limits)
  {
    forall i :: 0 <= i < |pieces| ==> GoodPiece(pieces[i], platform, limits, i == |pieces| - 1)
  }

  // ----- Lines -----

  /** The reader finds exactly the line at the start of the text. */
  lemma LineExactly(text: string, content: string, newline: nat, rest: string, platform: Platform)
    requires text != ""
    ensures ReadLine(text, platform) == Line(content, newline, rest) <==>
              && IsLine(content, newline, platform, rest == "")
              && text == content + Terminator(newline) + rest
  {
    var l := ReadLine(text, platform);
    ReadLinePartitions(text, platform);
    if l == Line(content, newline, rest) {
      assert IsLine(content, newline, platform, rest == "") by { ReadIsLine(text, platform); }
    }
    if IsLine(content, newline, platform, rest == "") && text == content + Terminator(newline) + rest {
      LineIsRead(content, newline, rest, platform);
    }
  }

  lemma ReadIsLine(text: string, platform: Platform)
    requires text != ""
    ensures var l := ReadLine(text, platform); IsLine(l.content, l.newline, platform, l.rest == "")
  {
    var lf := IndexOf(text, '\n');
    if lf < |text| && lf > 0 {
      assert EndsWithCr(text[..lf]) <==> text[lf - 1] == '\r';
    }
  }

  lemma LineIsRead(content: string, newline: nat, rest: string, platform: Platform)
    requires IsLine(content, newline, platform, rest == "")
    ensures content + Terminator(newline) + rest != ""
    ensures ReadLine(content + Terminator(newline) + rest, platform) == Line(content, newline, rest)
  {
    hide ReadLine;
    if newline == 0 {
      UnendedIsRead(content, platform);
      assert content + "" + rest == content;
    } else {
      ReadPrintedLine(content, Terminator(newline), rest, platform);
    }
  }

  lemma UnendedIsRead(content: string, platform: Platform)
    requires content != "" && '\n' !in content
    ensures ReadLine(content, platform) == Line(content, 0, "")
  {
  }

  // ----- Heredoc bodies -----

  lemma {:induction false} BodyOfIsPrefix(body: seq<TextLine>)
    requires body != []
    ensures BodyText(body) == BodyOf(body) + Terminator(body[|body| - 1].newline)
    decreases |body|
  {
    hide Terminator;
    var rest := body[1..];
    if |body| == 1 {
      assert rest == [] && BodyText(rest) == "";
    } else {
      BodyOfIsPrefix(rest);
      assert rest[|rest| - 1] == body[|body| - 1];
      var end := Terminator(body[|body| - 1].newline);
      assert LineText(body[0]) + (BodyOf(rest) + end) == (LineText(body[0]) + BodyOf(rest)) + end;
    }
  }

  /** Scanning a good body that is followed by its delimiter finds where the body's value ends. */
  lemma {:induction false} BodyIsScanned(body: seq<TextLine>, delimiter: string, close: nat, rest: string, platform: Platform, limits: Limits)
    requires GoodBody(body, delimiter, platform, limits) && IsLine(delimiter, close, platform, rest == "") && |delimiter| <= limits.line
    ensures ScanBody(BodyText(body) + (delimiter + Terminator(close) + rest), delimiter, platform, limits) ==
              Ok(Body(if body == [] then None else Some(|BodyOf(body)|), rest))
    decreases |body|
  {
    hide ScanBody, ReadLine, GoodBody, IsLine, Terminator;
    var tail := delimiter + Terminator(close) + rest;
    if body == [] {
      assert BodyText(body) + tail == tail;
      LineIsRead(delimiter, close, rest, platform);
      ScanBodyStep(tail, delimiter, platform, limits);
    } else {
      FirstOfBody(body, delimiter, platform, limits);
      var l, more := body[0], BodyText(body[1..]) + tail;
      BodyIsScanned(body[1..], delimiter, close, rest, platform, limits);
      var text := BodyText(body) + tail;
      assert text == l.content + Terminator(l.newline) + more by {
        assert BodyText(body) == l.content + Terminator(l.newline) + BodyText(body[1..]);
      }
      LineIsRead(delimiter, close, rest, platform);
      EndedAnywhere(l.content, l.newline, platform, more == "");
      LineIsRead(l.content, l.newline, more, platform);
      ScanBodyStep(text, delimiter, platform, limits);
      TerminatorWidth(l.newline, l.content, platform);
    }
  }

  lemma EndedAnywhere(content: string, newline: nat, platform: Platform, last: bool)
    requires newline > 0 && IsLine(content, newline, platform, false)
    ensures IsLine(content, newline, platform, last)
  {
  }

  lemma TerminatorWidth(newline: nat, content: string, platform: Platform)
    requires IsLine(content, newline, platform, false)
    ensures |Terminator(newline)| == newline
  {
  }

  lemma FirstOfBody(body: seq<TextLine>, delimiter: string, platform: Platform, limits: Limits)
    requires body != [] && GoodBody(body, delimiter, platform, limits)
    ensures GoodBody(body[1..], delimiter, platform, limits)
    ensures var l := body[0];
            l.newline > 0 && IsLine(l.content, l.newline, platform, false) && |l.content| <= limits.line && l.content != delimiter
  {
  }

  /** And every body that is scanned is such a text. */
  lemma {:induction false} ScannedIsBody(text: string, delimiter: string, platform: Platform, limits: Limits) returns (body: seq<TextLine>, close: nat)
    requires ScanBody(text, delimiter, platform, limits).Ok?
    ensures var found := ScanBody(text, delimiter, platform, limits).value;
            && GoodBody(body, delimiter, platform, limits) && |delimiter| <= limits.line
            && IsLine(delimiter, close, platform, found.rest == "")
            && text == BodyText(body) + (delimiter + Terminator(close) + found.rest)
            && found.end == (if body == [] then None else Some(|BodyOf(body)|))
    decreases |text|
  {
    hide ScanBody, ReadLine, IsLine, Terminator;
    NoBody(delimiter, platform, limits);
    ScanBodyStep(text, delimiter, platform, limits);
    var l := ReadLine(text, platform);
    LineExactly(text, l.content, l.newline, l.rest, platform);
    if l.content == delimiter {
      body, close := [], l.newline;
      assert "" + (delimiter + Terminator(close) + l.rest) == text;
    } else {
      var more: seq<TextLine>;
      more, close := ScannedIsBody(l.rest, delimiter, platform, limits);
      body := [TextLine(l.content, l.newline)] + more;
      assert body[1..] == more;
      NotLast(l.content, l.newline, platform, l.rest == "");
      TerminatorWidth(l.newline, l.content, platform);
      assert BodyText(body) == l.content + Terminator(l.newline) + BodyText(more);
      var found := ScanBody(text, delimiter, platform, limits).value;
      assert text == BodyText(body) + (delimiter + Terminator(close) + found.rest);
    }
  }

  lemma NotLast(content: string, newline: nat, platform: Platform, last: bool)
    requires newline > 0 && IsLine(content, newline, platform, last)
    ensures IsLine(content, newline, platform, false)
  {
  }

  // ----- Records -----

  lemma MarkerAt(name: string, marker: string, tail: string)
    requires marker == "=" || marker == "<<"
    requires BeforeMarker(name, name + marker + tail)
    ensures var content := name + marker + tail;
            && content[..|name|] == name && content[|name| + |marker|..] == tail
            && (marker == "=" ==> IndexOf(content, '=') == |name| && |name| < Find(content, "<<"))
            && (marker == "<<" ==> Find(content, "<<") == |name| && |name| <= IndexOf(content, '='))
  {
    var content := name + marker + tail;
    if marker == "=" {
      assert content == name + ['='] + tail;
      IndexOfConcat(name, '=', tail);
      assert !At(content, "<<", |name|) by { assert content[|name|] == '='; }
    } else {
      assert content[|name|..|name| + 2] == "<<";
      FindIs(content, "<<", |name|);
      assert forall i :: 0 <= i < |name| ==> content[i] == name[i];
    }
  }

  lemma AssignmentIsRead(name: string, value: string, rest: string, platform: Platform, limits: Limits)
    requires BeforeMarker(name, name + "=" + value) && 0 < |name| <= limits.name && |value| <= limits.value
    ensures ParseRecord(name + "=" + value, rest, platform, limits) == Ok(Parsed(NameValue(name, value), rest))
  {
    hide IndexOf, Find, ScanBody;
    MarkerAt(name, "=", value);
  }

  lemma HereIsRead(p: Piece, rest: string, platform: Platform, limits: Limits)
    requires p.Here? && GoodPiece(p, platform, limits, rest == "")
    ensures ParseRecord(p.name + "<<" + p.delimiter, BodyText(p.body) + (p.delimiter + Terminator(p.close) + rest), platform, limits)
            == Ok(Parsed(NameValue(p.name, BodyOf(p.body)), rest))
  {
    hide IndexOf, Find, ScanBody, GoodBody, IsLine, BeforeMarker;
    MarkerAt(p.name, "<<", p.delimiter);
    BodyIsScanned(p.body, p.delimiter, p.close, rest, platform, limits);
    var text := BodyText(p.body) + (p.delimiter + Terminator(p.close) + rest);
    if p.body != [] {
      BodyOfIsPrefix(p.body);
      assert text[..|BodyOf(p.body)|] == BodyOf(p.body);
    }
  }

  /** The first line of a good piece, and the record read from it. */
  lemma PieceIsRead(p: Piece, rest: string, platform: Platform, limits: Limits)
    requires GoodPiece(p, platform, limits, rest == "")
    ensures PieceText(p) + rest != ""
    ensures var l := ReadLine(PieceText(p) + rest, platform);
            && |l.content| <= limits.line
            && (p.Blank? ==> l.content == "" && l.rest == rest)
            && (!p.Blank? ==> l.content != "")
            && (p.Assignment? ==> ParseRecord(l.content, l.rest, platform, limits) == Ok(Parsed(NameValue(p.name, p.value), rest)))
            && (p.Here? ==> ParseRecord(l.content, l.rest, platform, limits) == Ok(Parsed(NameValue(p.name, BodyOf(p.body)), rest)))
  {
    hide ReadLine, ParseRecord, IsLine, BeforeMarker, GoodBody;
    match p
    case Blank(newline) =>
      LineIsRead("", newline, rest, platform);
      assert "" + Terminator(newline) + rest == PieceText(p) + rest;
    case Assignment(name, value, newline) =>
      LineIsRead(name + "=" + value, newline, rest, platform);
      AssignmentIsRead(name, value, rest, platform, limits);
    case Here(name, delimiter, newline, body, close) =>
      var content, tail := name + "<<" + delimiter, BodyText(body) + (delimiter + Terminator(close) + rest);
      assert PieceText(p) + rest == content + Terminator(newline) + tail;
      AnywhereOnceEnded(content, newline, platform, rest == "", tail == "");
      LineIsRead(content, newline, tail, platform);
      HereIsRead(p, rest, platform, limits);
  }

  lemma AnywhereOnceEnded(content: string, newline: nat, platform: Platform, a: bool, b: bool)
    requires newline > 0 && IsLine(content, newline, platform, a)
    ensures IsLine(content, newline, platform, b)
  {
  }

  lemma RestOfPieces(pieces: seq<Piece>, platform: Platform, limits: Limits)
    requires pieces != [] && GoodPieces(pieces, platform, limits)
    ensures GoodPieces(pieces[1..], platform, limits)
    ensures GoodPiece(pieces[0], platform, limits, FileText(pieces[1..]) == "")
  {
    hide GoodPiece;
    var rest := pieces[1..];
    forall i | 0 <= i < |rest|
      ensures GoodPiece(rest[i], platform, limits, i == |rest| - 1)
    {
      assert GoodPiece(pieces[i + 1], platform, limits, i + 1 == |pieces| - 1);
    }
    assert GoodPiece(pieces[0], platform, limits, 0 == |pieces| - 1);
    if rest != [] {
      assert rest[0] == pieces[1];
      PieceIsNotEmpty(rest[0], platform, limits, |rest| == 1);
    }
  }

  lemma PieceIsNotEmpty(p: Piece, platform: Platform, limits: Limits, last: bool)
    requires GoodPiece(p, platform, limits, last)
    ensures PieceText(p) != ""
  {
  }

  /** Every text of the grammar is accepted and read as what it denotes. */
  lemma {:induction false} GrammarIsRead(pieces: seq<Piece>, done: nat, platform: Platform, limits: Limits)
    requires GoodPieces(pieces, platform, limits) && done + |Denotes(pieces)| <= limits.records
    ensures Parse(FileText(pieces), done, platform, limits) == Ok(Denotes(pieces))
    decreases |pieces|
  {
    hide Parse, ReadLine, ParseRecord, GoodPieces, GoodPiece, PieceText;
    if pieces == [] {
      NothingLeft(done, platform, limits);
    } else {
      RestOfPieces(pieces, platform, limits);
      var p, rest := pieces[0], FileText(pieces[1..]);
      PieceIsRead(p, rest, platform, limits);
      ParseStep(PieceText(p) + rest, done, platform, limits);
      GrammarIsRead(pieces[1..], if p.Blank? then done else done + 1, platform, limits);
    }
  }

  lemma AssignmentFound(content: string, rest: string, platform: Platform, limits: Limits, last: bool, newline: nat) returns (p: Piece)
    requires IsLine(content, newline, platform, last) && |content| <= limits.line
    requires IndexOf(content, '=') < |content| && IndexOf(content, '=') < Find(content, "<<")
    requires ParseRecord(content, rest, platform, limits).Ok?
    ensures GoodPiece(p, platform, limits, last) && PieceText(p) == content + Terminator(newline)
    ensures ParseRecord(content, rest, platform, limits).value.rest == rest
    ensures Denotes([p]) == [ParseRecord(content, rest, platform, limits).value.pair] && !p.Blank?
  {
    hide ScanBody, IsLine, GoodBody, Terminator;
    var equals := IndexOf(content, '=');
    var name, value := content[..equals], content[equals + 1..];
    p := Assignment(name, value, newline);
    assert content == name + "=" + value;
    assert BeforeMarker(name, content);
    assert [p][1..] == [];
  }

  lemma HereFound(content: string, rest: string, platform: Platform, limits: Limits, newline: nat) returns (p: Piece)
    requires newline > 0 && IsLine(content, newline, platform, false) && |content| <= limits.line
    requires !(IndexOf(content, '=') < |content| && IndexOf(content, '=') < Find(content, "<<"))
    requires ParseRecord(content, rest, platform, limits).Ok?
    ensures var parsed := ParseRecord(content, rest, platform, limits).value;
            && GoodPiece(p, platform, limits, parsed.rest == "") && content + Terminator(newline) + rest == PieceText(p) + parsed.rest
            && Denotes([p]) == [parsed.pair] && !p.Blank?
  {
    hide ScanBody, IsLine, GoodBody, Terminator, IndexOf, BodyText, BeforeMarker, Find, BodyOf;
    var heredoc := Find(content, "<<");
    var name, delimiter := content[..heredoc], content[heredoc + 2..];
    var parsed := ParseRecord(content, rest, platform, limits).value;
    HeaderParts(content);
    var body, close := ScannedIsBody(rest, delimiter, platform, limits);
    p := Here(name, delimiter, newline, body, close);
    BodyIsValue(rest, body, delimiter + Terminator(close) + parsed.rest);
    assert rest == BodyText(body) + (delimiter + Terminator(close)) + parsed.rest;
    AnywhereOnceEnded(content, newline, platform, false, parsed.rest == "");
    assert [p][1..] == [];
  }

  lemma HeaderParts(content: string)
    requires Find(content, "<<") < |content| && Find(content, "<<") <= IndexOf(content, '=')
    ensures var heredoc := Find(content, "<<");
            heredoc + 2 <= |content| && content == content[..heredoc] + "<<" + content[heredoc + 2..] && BeforeMarker(content[..heredoc], content)
  {
    hide IndexOf, Find;
    var heredoc := Find(content, "<<");
    assert content[heredoc..heredoc + 2] == "<<";
  }

  lemma BodyIsValue(rest: string, body: seq<TextLine>, tail: string)
    requires rest == BodyText(body) + tail
    ensures |BodyOf(body)| <= |rest| && rest[..|BodyOf(body)|] == BodyOf(body) && (body == [] ==> BodyOf(body) == "")
  {
    hide BodyText;
    if body == [] {
      assert BodyOf(body) == "";
    } else {
      BodyOfIsPrefix(body);
      hide BodyOf;
    }
  }

  /** A record that is read is an assignment or a heredoc at the start of the text. */
  lemma RecordIsPiece(text: string, platform: Platform, limits: Limits) returns (p: Piece)
    requires text != "" && ReadLine(text, platform).content != "" && |ReadLine(text, platform).content| <= limits.line
    requires ParseRecord(ReadLine(text, platform).content, ReadLine(text, platform).rest, platform, limits).Ok?
    ensures var l := ReadLine(text, platform);
            var parsed := ParseRecord(l.content, l.rest, platform, limits).value;
            && GoodPiece(p, platform, limits, parsed.rest == "") && text == PieceText(p) + parsed.rest
            && Denotes([p]) == [parsed.pair] && !p.Blank?
  {
    hide ReadLine, ParseRecord, IsLine, GoodPiece, PieceText, Denotes, IndexOf, Find;
    var l := ReadLine(text, platform);
    LineExactly(text, l.content, l.newline, l.rest, platform);
    if IndexOf(l.content, '=') < |l.content| && IndexOf(l.content, '=') < Find(l.content, "<<") {
      p := AssignmentFound(l.content, l.rest, platform, limits, l.rest == "", l.newline);
    } else {
      Unended(text, platform);
      NothingRead(l.content, platform, limits);
      AnywhereOnceEnded(l.content, l.newline, platform, l.rest == "", false);
      p := HereFound(l.content, l.rest, platform, limits, l.newline);
    }
  }

  lemma NothingRead(content: string, platform: Platform, limits: Limits)
    requires !(IndexOf(content, '=') < |content| && IndexOf(content, '=') < Find(content, "<<"))
    ensures ParseRecord(content, "", platform, limits).Err?
  {
    hide ScanBody, IndexOf, Find, CheckName;
    NoBody(content[Find(content, "<<")..], platform, limits);
    if Find(content, "<<") < |content| { NoBody(content[Find(content, "<<") + 2..], platform, limits); }
  }

  lemma Unended(text: string, platform: Platform)
    requires text != ""
    ensures ReadLine(text, platform).newline == 0 ==> ReadLine(text, platform).rest == ""
  {
  }

  lemma GoodPiecesCons(p: Piece, pieces: seq<Piece>, platform: Platform, limits: Limits)
    requires GoodPiece(p, platform, limits, pieces == []) && GoodPieces(pieces, platform, limits)
    ensures GoodPieces([p] + pieces, platform, limits)
  {
    hide GoodPiece;
    var all := [p] + pieces;
    forall i | 0 <= i < |all|
      ensures GoodPiece(all[i], platform, limits, i == |all| - 1)
    {
      if i > 0 { assert all[i] == pieces[i - 1]; }
    }
  }

  lemma DenotesCons(p: Piece, pieces: seq<Piece>)
    ensures Denotes([p] + pieces) == Denotes([p]) + Denotes(pieces) && FileText([p] + pieces) == PieceText(p) + FileText(pieces)
    ensures p.Blank? ==> Denotes([p]) == []
  {
    hide PieceText, BodyOf;
    assert ([p] + pieces)[1..] == pieces && [p][1..] == [];
  }

  /** Every accepted text is one of the grammar. */
  lemma {:induction false} ReadIsGrammar(text: string, done: nat, platform: Platform, limits: Limits) returns (pieces: seq<Piece>)
    requires Parse(text, done, platform, limits).Ok?
    ensures GoodPieces(pieces, platform, limits) && FileText(pieces) == text
    ensures Parse(text, done, platform, limits).value == Denotes(pieces)
    ensures |Denotes(pieces)| > 0 ==> done + |Denotes(pieces)| <= limits.records
    decreases |text|
  {
    hide Parse, ReadLine, ParseRecord, GoodPieces, GoodPiece, IsLine;
    if text == "" {
      NothingLeft(done, platform, limits);
      pieces := [];
      NoPieces(platform, limits);
    } else {
      ParseStep(text, done, platform, limits);
      ReadLinePartitions(text, platform);
      var l := ReadLine(text, platform);
      var p: Piece, rest: seq<Piece>;
      if l.content == "" {
        rest := ReadIsGrammar(l.rest, done, platform, limits);
        p := Blank(l.newline);
        BlankIsPiece(text, platform, limits);
      } else {
        var parsed := ParseRecord(l.content, l.rest, platform, limits).value;
        rest := ReadIsGrammar(parsed.rest, done + 1, platform, limits);
        p := RecordIsPiece(text, platform, limits);
      }
      pieces := [p] + rest;
      DenotesCons(p, rest);
      LastExactly(rest, platform, limits);
      GoodPiecesCons(p, rest, platform, limits);
    }
  }

  lemma NoPieces(platform: Platform, limits: Limits)
    ensures GoodPieces([], platform, limits)
  {
  }

  lemma BlankIsPiece(text: string, platform: Platform, limits: Limits)
    requires text != "" && ReadLine(text, platform).content == ""
    ensures var l := ReadLine(text, platform);
            GoodPiece(Blank(l.newline), platform, limits, l.rest == "") && text == PieceText(Blank(l.newline)) + l.rest
  {
    hide ReadLine;
    var l := ReadLine(text, platform);
    LineExactly(text, l.content, l.newline, l.rest, platform);
  }

  lemma LastExactly(pieces: seq<Piece>, platform: Platform, limits: Limits)
    requires GoodPieces(pieces, platform, limits)
    ensures FileText(pieces) == "" <==> pieces == []
  {
    if pieces != [] { PieceIsNotEmpty(pieces[0], platform, limits, |pieces| == 1); }
  }

  ghost predicate InGrammar(text: string, records: seq<NameValue>, platform: Platform, limits: Limits)
  {
    exists pieces :: GoodPieces(pieces, platform, limits) && FileText(pieces) == text && Denotes(pieces) == records
  }

  /** A file is accepted with these records exactly when it is made of pieces that denote them, and there are not too
      many. */
  lemma AcceptsExactly(text: string, records: seq<NameValue>, platform: Platform, limits: Limits)
    ensures Parse(text, 0, platform, limits) == Ok(records) <==>
              InGrammar(text, records, platform, limits) && |records| <= limits.records
  {
    hide Parse, GoodPieces, FileText, Denotes;
    if Parse(text, 0, platform, limits) == Ok(records) {
      var pieces := ReadIsGrammar(text, 0, platform, limits);
    }
    if InGrammar(text, records, platform, limits) && |records| <= limits.records {
      var pieces :| GoodPieces(pieces, platform, limits) && FileText(pieces) == text && Denotes(pieces) == records;
      GrammarIsRead(pieces, 0, platform, limits);
    }
  }

  // ----- Refused records -----

  /** The first marker of a line: the earlier of `=` and `<<`. */
  predicate HasMarker(content: string, name: string, marker: string)
  {
    && (marker == "=" || marker == "<<") && |name| + |marker| <= |content|
    && content[|name|..|name| + |marker|] == marker && BeforeMarker(name, content)
  }

  lemma {:induction false} ScanRefusals(text: string, delimiter: string, platform: Platform, limits: Limits)
    ensures var r := ScanBody(text, delimiter, platform, limits);
            r.Err? ==> r.error in {MissingDelimiter, LineTooLong, HeredocValueMissingNewline}
    decreases |text|
  {
    hide ReadLine, ScanBody;
    if text == "" {
      NoBody(delimiter, platform, limits);
    } else {
      ScanBodyStep(text, delimiter, platform, limits);
      ScanRefusals(ReadLine(text, platform).rest, delimiter, platform, limits);
    }
  }

  lemma MarkerIsFirst(content: string, name: string, marker: string)
    requires HasMarker(content, name, marker)
    ensures |name| + |marker| <= |content| && content[..|name|] == name
    ensures marker == "=" ==> |name| == IndexOf(content, '=') && IndexOf(content, '=') < Find(content, "<<")
    ensures marker == "<<" ==> |name| == Find(content, "<<") && Find(content, "<<") <= IndexOf(content, '=')
  {
    hide IndexOf, Find, At;
    var tail := content[|name| + |marker|..];
    assert content == name + marker + tail;
    MarkerAt(name, marker, tail);
    assert content[..|name|] == name;
  }

  lemma FirstMarker(content: string) returns (name: string, marker: string)
    requires '=' in content || exists i :: At(content, "<<", i)
    ensures HasMarker(content, name, marker)
  {
    var equals, heredoc := IndexOf(content, '='), Find(content, "<<");
    if equals < |content| && equals < heredoc {
      name, marker := content[..equals], "=";
    } else {
      name, marker := content[..heredoc], "<<";
      if i :| At(content, "<<", i) { assert i < |content|; }
      assert heredoc < |content| && content[heredoc..heredoc + 2] == "<<";
    }
  }

  /** An assignment line: what it denotes, or why it is refused. */
  lemma AssignmentOutcome(content: string, name: string, rest: string, platform: Platform, limits: Limits)
    requires HasMarker(content, name, "=")
    ensures ParseRecord(content, rest, platform, limits) ==
              if name == "" then Err(EmptyName)
              else if |name| > limits.name then Err(NameTooLong)
              else if |content| - |name| - 1 > limits.value then Err(ValueTooLong)
              else Ok(Parsed(NameValue(name, content[|name| + 1..]), rest))
  {
    hide ScanBody, IndexOf, Find, BeforeMarker;
    MarkerIsFirst(content, name, "=");
  }

  /** A heredoc header is refused for its name and its delimiter first, and then for what follows. */
  lemma HereOutcome(content: string, name: string, rest: string, platform: Platform, limits: Limits)
    requires HasMarker(content, name, "<<")
    ensures var r, delimiter := ParseRecord(content, rest, platform, limits), content[|name| + 2..];
            if name == "" then r == Err(EmptyName)
            else if |name| > limits.name then r == Err(NameTooLong)
            else if delimiter == "" then r == Err(EmptyDelimiter)
            else if |delimiter| > limits.name then r == Err(NameTooLong)
            else r.Ok? || r.error in {MissingDelimiter, LineTooLong, HeredocValueMissingNewline, ValueTooLong}
  {
    hide ScanBody, IndexOf, Find, BeforeMarker;
    MarkerIsFirst(content, name, "<<");
    ScanRefusals(rest, content[|name| + 2..], platform, limits);
  }

  /** A line is malformed exactly when it has no marker at all. */
  lemma MalformedExactly(content: string, rest: string, platform: Platform, limits: Limits)
    ensures ParseRecord(content, rest, platform, limits) == Err(MalformedRecord) <==>
              '=' !in content && forall i :: !At(content, "<<", i)
  {
    hide ParseRecord, IndexOf, Find;
    if '=' in content || exists i :: At(content, "<<", i) {
      var name, marker := FirstMarker(content);
      if marker == "=" {
        AssignmentOutcome(content, name, rest, platform, limits);
      } else {
        HereOutcome(content, name, rest, platform, limits);
      }
    } else {
      NoMarker(content, rest, platform, limits);
    }
  }

  lemma NoMarker(content: string, rest: string, platform: Platform, limits: Limits)
    requires '=' !in content && forall i :: !At(content, "<<", i)
    ensures ParseRecord(content, rest, platform, limits) == Err(MalformedRecord)
  {
    hide ScanBody;
  }
}

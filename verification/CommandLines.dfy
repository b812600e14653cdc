/** What every output line means to the command parser, printed by a writer or not (`parse_command` and
    `parse_properties` in crates/automata-ci-actions-runtime/src/workflow_command.rs). */
module CommandLines {

  import opened Text
  import opened Utf8
  import opened Escapes
  import opened WorkflowCommands
  import NameValues
  import opened WriteHistory

  // ----- The frame of a command -----

  /** White space, two colons, the command's information, two colons, its raw data. The information ends at the first
      two colons. */
  predicate Framed(line: string, white: string, info: string, raw: string)
  {
    && AllWhite(white) && line == white + ("::" + (info + ("::" + raw)))
    && forall i :: 0 <= i < |info| ==> !At(info + "::", "::", i)
  }

  lemma {:induction false} TrimStartExactly(white: string, rest: string)
    requires AllWhite(white) && rest != "" && !IsWhite(rest[0])
    ensures TrimStart(white + rest) == rest
  {
    if white == "" {
      assert white + rest == rest;
    } else {
      assert (white + rest)[1..] == white[1..] + rest;
      TrimStartExactly(white[1..], rest);
    }
  }

  lemma SeparatorAt(info: string, raw: string, i: nat)
    requires i < |info|
    ensures At(info + ("::" + raw), "::", i) <==> At(info + "::", "::", i)
  {
    var a, b := info + ("::" + raw), info + "::";
    assert a[i] == b[i] && a[i + 1] == b[i + 1];
    assert a[i..i + 2] == [a[i], a[i + 1]] && b[i..i + 2] == [b[i], b[i + 1]];
  }

  lemma FramedParses(line: string, white: string, info: string, raw: string, limits: Limits, dynamic: Option<string>)
    requires Framed(line, white, info, raw)
    ensures ParseCommand(line, limits, dynamic) == ParseParts(info, raw, limits, dynamic)
  {
    hide ParseParts, Find, TrimStart;
    var rest := info + ("::" + raw);
    TrimStartExactly(white, "::" + rest);
    assert ("::" + rest)[2..] == rest;
    forall i | 0 <= i < |info|
      ensures !At(rest, "::", i)
    {
      SeparatorAt(info, raw, i);
    }
    assert rest[|info|..|info| + 2] == "::";
    FindIs(rest, "::", |info|);
    assert rest[..|info|] == info && rest[|info| + 2..] == raw;
  }

  lemma CommandIsFramed(line: string, limits: Limits, dynamic: Option<string>) returns (white: string, info: string, raw: string)
    requires ParseCommand(line, limits, dynamic) != Ok(None)
    ensures Framed(line, white, info, raw)
  {
    hide ParseParts, Find, TrimStart;
    var a := TrimStartSlice(line);
    var rest := TrimStart(line)[2..];
    var k := Find(rest, "::");
    white, info, raw := line[..a], rest[..k], rest[k + 2..];
    assert rest == info + ("::" + raw) by { assert rest[k..k + 2] == "::"; }
    assert line == white + ("::" + (info + ("::" + raw)));
    forall i | 0 <= i < |info|
      ensures !At(info + "::", "::", i)
    {
      SeparatorAt(info, raw, i);
    }
  }

  /** Every other line carries no command. */
  lemma UnframedIsOrdinary(line: string, limits: Limits, dynamic: Option<string>)
    requires forall white, info, raw :: !Framed(line, white, info, raw)
    ensures ParseCommand(line, limits, dynamic) == Ok(None)
  {
    hide ParseCommand, Framed;
    if ParseCommand(line, limits, dynamic) != Ok(None) {
      var white, info, raw := CommandIsFramed(line, limits, dynamic);
    }
  }

  // ----- Properties -----

  /** A piece that denotes a property: a name without an equals sign, an equals sign, and a raw value. */
  predicate Assigns(piece: string, p: NameValues.NameValue)
  {
    && p.name != "" && '=' !in p.name && |p.name| + 1 < |piece|
    && piece[..|p.name|] == p.name && piece[|p.name|] == '=' && p.value == UnescapeProperty(piece[|p.name| + 1..])
  }

  /** The assignments among the pieces, in order, and where they are. */
  ghost predicate AssignedAt(pieces: seq<string>, ws: seq<NameValues.NameValue>, at: seq<nat>)
  {
    && |at| == |ws|
    && (forall j, k :: 0 <= j < k < |at| ==> at[j] < at[k])
    && (forall k :: 0 <= k < |at| ==> at[k] < |pieces| && Assigns(pieces[at[k]], ws[k]))
    && (forall i, p :: 0 <= i < |pieces| && Assigns(pieces[i], p) ==> i in at)
  }

  function CountNonEmpty(pieces: seq<string>): nat
  {
    if pieces == [] then 0 else CountNonEmpty(pieces[..|pieces| - 1]) + if pieces[|pieces| - 1] == "" then 0 else 1
  }

  function AsPairs(ps: seq<Property>): (r: seq<NameValues.NameValue>)
    ensures |r| == |ps| && forall i :: 0 <= i < |ps| ==> r[i] == NameValues.NameValue(ps[i].name, ps[i].value)
  {
    seq(|ps|, i requires 0 <= i < |ps| => NameValues.NameValue(ps[i].name, ps[i].value))
  }

  predicate AllFit(ws: seq<NameValues.NameValue>, limits: Limits)
  {
    forall k :: 0 <= k < |ws| ==> |Bytes(ws[k].name)| <= limits.nameBytes && |Bytes(ws[k].value)| <= limits.dataBytes
  }

  /** What a property list denotes: under each name, up to ASCII case, its first spelling with its last value, in the
      order of the first spellings. */
  ghost predicate PropertiesOf(pieces: seq<string>, ps: seq<Property>, ws: seq<NameValues.NameValue>, at: seq<nat>, firsts: seq<nat>)
  {
    AssignedAt(pieces, ws, at) && HoldsWrites(AsPairs(ps), ws, true, Anything, firsts)
  }

  lemma StoreIsWrite(ps: seq<Property>, name: string, value: string)
    ensures AsPairs(Store(ps, name, value)) == NameValues.Write(AsPairs(ps), NameValues.NameValue(name, value), true)
  {
    hide Lower;
    var pairs := AsPairs(ps);
    var k, j := Position(ps, name), NameValues.Position(pairs, NameValues.Key(name, true), true);
    assert forall i :: 0 <= i < |ps| ==> (EqIgnoreCase(ps[i].name, name) <==> NameValues.KeyOf(pairs[i], true) == NameValues.Key(name, true));
    assert j == k;
  }

  lemma AssignmentExactly(piece: string, p: NameValues.NameValue)
    ensures Assigns(piece, p) <==>
              IsAssignment(piece) && p == NameValues.NameValue(piece[..IndexOf(piece, '=')], UnescapeProperty(piece[IndexOf(piece, '=') + 1..]))
  {
    hide UnescapeProperty;
    if Assigns(piece, p) {
      assert forall i :: 0 <= i < |p.name| ==> piece[i] == p.name[i];
      assert IndexOf(piece, '=') == |p.name|;
    }
  }

  /** One more piece. */
  lemma OneMorePiece(pieces: seq<string>, piece: string, ps: seq<Property>, ws: seq<NameValues.NameValue>, at: seq<nat>, firsts: seq<nat>)
      returns (ps': seq<Property>, ws': seq<NameValues.NameValue>, at': seq<nat>, firsts': seq<nat>)
    requires PropertiesOf(pieces, ps, ws, at, firsts)
    ensures PropertiesOf(pieces + [piece], ps', ws', at', firsts')
    ensures !IsAssignment(piece) ==> ps' == ps && ws' == ws
    ensures IsAssignment(piece) ==>
              var k := IndexOf(piece, '=');
              var w := NameValues.NameValue(piece[..k], UnescapeProperty(piece[k + 1..]));
              ps' == Store(ps, w.name, w.value) && ws' == ws + [w]
  {
    hide UnescapeProperty, HoldsWrites, Store, NameValues.Write, Assigns, IndexOf;
    var k, all := IndexOf(piece, '='), pieces + [piece];
    assert all[|pieces|] == piece && forall i :: 0 <= i < |pieces| ==> all[i] == pieces[i];
    forall p
      ensures Assigns(piece, p) <==> IsAssignment(piece) && p == NameValues.NameValue(piece[..k], UnescapeProperty(piece[k + 1..]))
    {
      AssignmentExactly(piece, p);
    }
    if IsAssignment(piece) {
      var w := NameValues.NameValue(piece[..k], UnescapeProperty(piece[k + 1..]));
      ps', ws', at' := Store(ps, w.name, w.value), ws + [w], at + [|pieces|];
      AnythingGoes();
      firsts' := OneMoreWrite(AsPairs(ps), ws, w, true, Anything, firsts);
      StoreIsWrite(ps, w.name, w.value);
      assert at'[|at|] == |pieces|;
    } else {
      ps', ws', at', firsts' := ps, ws, at, firsts;
    }
  }

  lemma AnythingGoes()
    ensures Respects(Anything, true)
  {
  }

  lemma NoPieces()
    ensures PropertiesOf([], [], [], [], [])
  {
    NothingHeld(true, Anything);
  }

  /** The parser at one piece. */
  lemma PieceStep(piece: string, rest: seq<string>, ps: seq<Property>, count: nat, limits: Limits)
    ensures var r, n := ParsePieces([piece] + rest, ps, count, limits), if piece == "" then count else count + 1;
            && (n > limits.properties && piece != "" ==> r.Err?)
            && (n <= limits.properties || piece == "" ==>
                  && (!IsAssignment(piece) ==> r == ParsePieces(rest, ps, n, limits))
                  && (IsAssignment(piece) ==>
                        var k := IndexOf(piece, '=');
                        var w := NameValues.NameValue(piece[..k], UnescapeProperty(piece[k + 1..]));
                        if AllFit([w], limits) then r == ParsePieces(rest, Store(ps, w.name, w.value), n, limits) else r.Err?))
  {
    hide UnescapeProperty, Bytes, Store, IndexOf;
    EmptyIsNoAssignment(piece);
    assert ([piece] + rest)[0] == piece && ([piece] + rest)[1..] == rest;
    if IsAssignment(piece) {
      var k := IndexOf(piece, '=');
      var w := NameValues.NameValue(piece[..k], UnescapeProperty(piece[k + 1..]));
      assert [w][0] == w;
    }
  }

  lemma FitsSnoc(ws: seq<NameValues.NameValue>, w: NameValues.NameValue, limits: Limits)
    ensures AllFit(ws + [w], limits) <==> AllFit(ws, limits) && AllFit([w], limits)
  {
    hide Bytes;
    var all := ws + [w];
    assert all[|ws|] == w && [w][0] == w && forall k :: 0 <= k < |ws| ==> all[k] == ws[k];
  }

  /** The parser after the first pieces, when none of them was refused. */
  lemma {:induction false} ReadPieces(pieces: seq<string>, n: nat, limits: Limits)
      returns (ps: seq<Property>, ws: seq<NameValues.NameValue>, at: seq<nat>, firsts: seq<nat>)
    requires n <= |pieces|
    ensures PropertiesOf(pieces[..n], ps, ws, at, firsts)
    ensures CountNonEmpty(pieces[..n]) <= limits.properties && AllFit(ws, limits) ==>
              ParsePieces(pieces, [], 0, limits) == ParsePieces(pieces[n..], ps, CountNonEmpty(pieces[..n]), limits)
    ensures !(CountNonEmpty(pieces[..n]) <= limits.properties && AllFit(ws, limits)) ==> ParsePieces(pieces, [], 0, limits).Err?
    decreases n
  {
    hide PropertiesOf, UnescapeProperty, AllFit, Store, ParsePieces, IndexOf, IsAssignment;
    if n == 0 {
      ps, ws, at, firsts := [], [], [], [];
      NoPieces();
      assert pieces[..0] == [] && pieces[0..] == pieces;
      NothingFits(limits);
    } else {
      var ps0, ws0, at0, firsts0 := ReadPieces(pieces, n - 1, limits);
      var front, piece := pieces[..n - 1], pieces[n - 1];
      assert pieces[..n] == front + [piece] && pieces[n - 1..] == [piece] + pieces[n..];
      assert (front + [piece])[..|front|] == front;
      ps, ws, at, firsts := OneMorePiece(front, piece, ps0, ws0, at0, firsts0);
      PieceStep(piece, pieces[n..], ps0, CountNonEmpty(front), limits);
      if IsAssignment(piece) {
        FitsSnoc(ws0, ws[|ws0|], limits);
      }
    }
  }

  lemma NothingFits(limits: Limits)
    ensures AllFit([], limits)
  {
  }

  lemma EmptyIsNoAssignment(piece: string)
    ensures piece == "" ==> !IsAssignment(piece)
  {
  }

  ghost predicate Denotes(source: string, ps: seq<Property>, limits: Limits)
  {
    exists ws, at, firsts :: PropertiesOf(Split(source, ','), ps, ws, at, firsts) && AllFit(ws, limits)
  }

  /** A property list is refused exactly when it has too many pieces or an assignment whose name or value is too long.
      Otherwise it denotes the assignments among its pieces, and pieces that assign nothing are skipped. */
  lemma PropertiesExactly(source: string, limits: Limits)
    ensures var pieces, r := Split(source, ','), ParseProperties(source, limits);
            && (r.Ok? ==> CountNonEmpty(pieces) <= limits.properties && Denotes(source, r.value, limits))
            && (r.Err? ==> || CountNonEmpty(pieces) > limits.properties
                           || exists i, p :: 0 <= i < |pieces| && Assigns(pieces[i], p) && !AllFit([p], limits))
  {
    hide PropertiesOf, AllFit, UnescapeProperty, Split;
    var pieces := Split(source, ',');
    var ps, ws, at, firsts := ReadPieces(pieces, |pieces|, limits);
    assert pieces[..|pieces|] == pieces && pieces[|pieces|..] == [];
    if CountNonEmpty(pieces) <= limits.properties && !AllFit(ws, limits) {
      UnfitAssignment(pieces, ps, ws, at, firsts, limits);
    }
  }

  lemma UnfitAssignment(pieces: seq<string>, ps: seq<Property>, ws: seq<NameValues.NameValue>, at: seq<nat>, firsts: seq<nat>, limits: Limits)
    requires PropertiesOf(pieces, ps, ws, at, firsts) && !AllFit(ws, limits)
    ensures exists i, p :: 0 <= i < |pieces| && Assigns(pieces[i], p) && !AllFit([p], limits)
  {
    hide HoldsWrites, Assigns, Bytes;
    var k :| 0 <= k < |ws| && !(|Bytes(ws[k].name)| <= limits.nameBytes && |Bytes(ws[k].value)| <= limits.dataBytes);
    assert Assigns(pieces[at[k]], ws[k]) && !AllFit([ws[k]], limits) by { assert [ws[k]][0] == ws[k]; }
  }

  // ----- Commands -----

  /** A registered command, or the dynamic one, in any case. */
  predicate Known(name: string, dynamic: Option<string>)
  {
    || (exists i :: 0 <= i < |REGISTERED| && SameLetters(REGISTERED[i], name))
    || (dynamic.Some? && SameLetters(dynamic.value, name))
  }

  lemma KnownExactly(name: string, dynamic: Option<string>)
    ensures Recognized(name, dynamic) <==> Known(name, dynamic)
  {
    hide SameLetters, EqIgnoreCase;
    forall i | 0 <= i < |REGISTERED|
      ensures EqIgnoreCase(REGISTERED[i], name) <==> SameLetters(REGISTERED[i], name)
    {
      EqIgnoreCaseExactly(REGISTERED[i], name);
    }
    if dynamic.Some? { EqIgnoreCaseExactly(dynamic.value, name); }
  }

  /** The information is a name, and perhaps a space and the text of the properties. */
  predicate Heads(info: string, name: string, text: Option<string>)
  {
    ' ' !in name && info == if text.None? then name else name + ([' '] + text.value)
  }

  lemma HeadFound(info: string, name: string, text: Option<string>)
    requires Heads(info, name, text)
    ensures IndexOf(info, ' ') == |name| && info[..|name|] == name
    ensures text.Some? ==> |name| < |info| && info[|name| + 1..] == text.value
    ensures text.None? ==> |name| == |info|
  {
    if text.Some? {
      assert info == name + [' '] + text.value;
      IndexOfConcat(name, ' ', text.value);
    } else {
      assert info[..|name|] == name;
    }
  }

  /** What each framed line means. */
  lemma CommandExactly(
      line: string, white: string, info: string, raw: string, name: string, text: Option<string>, limits: Limits, dynamic: Option<string>)
    requires Framed(line, white, info, raw) && Heads(info, name, text) && name != ""
    ensures var r, data := ParseCommand(line, limits, dynamic), UnescapeData(raw);
            var properties := if text.None? then Ok([]) else ParseProperties(Trim(text.value), limits);
            if !Known(name, dynamic) then r == Ok(None)
            else if |Bytes(name)| > limits.nameBytes then r == Err(NameTooLong)
            else if properties.Err? then r == Err(properties.error)
            else if |Bytes(data)| > limits.dataBytes then r == Err(DataTooLong)
            else r == Ok(Some(RawCommand(name, properties.value, data)))
  {
    hide ParseCommand, ParseProperties, Recognized, Known, Trim, UnescapeData, Bytes, IndexOf;
    FramedParses(line, white, info, raw, limits, dynamic);
    KnownExactly(name, dynamic);
    HeadFound(info, name, text);
  }
}

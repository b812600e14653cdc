/** What a running session makes of each command, stated on the command's printed line
    (`process_command` in crates/automata-ci-actions-runtime/src/workflow_command.rs). */
module SessionEvents {

  import opened Text
  import opened TextLines
  import opened Utf8
  import opened WorkflowCommands
  import opened AnnotationLocations
  import opened WorkflowSession

  // ----- Masks -----

  ghost predicate IsMaskAt(value: string, i: nat, mask: string)
  {
    mask != "" && exists line :: IsLine(value, i, line) && IsTrim(line, mask)
  }

  /** The masks are the trimmed lines of `value` from position `from` on, in order, and no line that is not blank is
      missing. */
  ghost predicate MasksLines(value: string, from: nat, masks: seq<string>, starts: seq<nat>)
  {
    && |starts| == |masks|
    && (forall k :: 0 <= k < |starts| ==> from <= starts[k] && IsMaskAt(value, starts[k], masks[k]))
    && (forall j, k :: 0 <= j < k < |starts| ==> starts[j] < starts[k])
    && (forall i, line :: from <= i && IsLine(value, i, line) && !AllWhite(line) ==> i in starts)
  }

  /** The first line of a rest, and where the next line starts. */
  lemma FirstLine(value: string, from: nat, k: nat)
    requires StartsLine(value, from) && k == IndexOf(CrToLf(value[from..]), '\n')
    ensures var w := CrToLf(value[from..]);
            && k <= |w| && w[..k] == value[from..from + k] && IsLine(value, from, w[..k])
            && (k < |w| ==> from + k + 1 <= |value| && StartsLine(value, from + k + 1) && w[k + 1..] == CrToLf(value[from + k + 1..]))
            && (k == |w| ==> from + k == |value|)
  {
    var w := CrToLf(value[from..]);
    assert forall i :: 0 <= i < |w| ==> w[i] == (if value[from + i] == '\r' then '\n' else value[from + i]);
  }

  lemma BlankTrims(line: string, r: string)
    requires IsTrim(line, r)
    ensures r == "" <==> AllWhite(line)
  {
    var a, b :| 0 <= a <= b <= |line| && TrimsTo(line, a, b) && r == line[a..b];
    WhiteEnds(line, a, b);
  }

  /** One more line in front. */
  lemma MasksOneMore(value: string, from: nat, line: string, masks: seq<string>, starts: seq<nat>) returns (all: seq<nat>)
    requires IsLine(value, from, line) && MasksLines(value, from + |line| + 1, masks, starts)
    ensures MasksLines(value, from, (if Trim(line) == "" then [] else [Trim(line)]) + masks, all)
  {
    hide Trim, IsLine, IsTrim, AllWhite;
    TrimExactly(line, Trim(line));
    BlankTrims(line, Trim(line));
    var head := if Trim(line) == "" then [] else [Trim(line)];
    all := (if Trim(line) == "" then [] else [from]) + starts;
    forall i, other | from <= i && IsLine(value, i, other) && !AllWhite(other)
      ensures i in all
    {
      if i == from {
        LineIsUnique(value, i, line, other);
        assert all[0] == from;
      } else {
        NextLine(value, from, line, i, other);
        assert i in starts;
      }
    }
    forall k | 0 <= k < |all|
      ensures from <= all[k] && IsMaskAt(value, all[k], (head + masks)[k])
    {
      if k < |head| {
        assert IsLine(value, from, line) && IsTrim(line, head[0]);
      } else {
        assert all[k] == starts[k - |head|] && (head + masks)[k] == masks[k - |head|];
      }
    }
  }

  /** No line starts past the end. */
  lemma MasksNone(value: string)
    ensures MasksLines(value, |value| + 1, [], [])
  {
  }

  lemma {:induction false} LinesAreMasked(value: string, from: nat) returns (starts: seq<nat>)
    requires from <= |value| && StartsLine(value, from)
    ensures MasksLines(value, from, NonEmptyTrimmed(Split(CrToLf(value[from..]), '\n')), starts)
    decreases |value| - from
  {
    hide MasksLines, IsLine, StartsLine, Trim, CrToLf, IndexOf;
    var w := CrToLf(value[from..]);
    var k := IndexOf(w, '\n');
    FirstLine(value, from, k);
    if k == |w| {
      MasksNone(value);
      starts := MasksOneMore(value, from, w[..k], [], []);
      assert w[..k] == w && Split(w, '\n') == [w];
      var head := if Trim(w) == "" then [] else [Trim(w)];
      assert NonEmptyTrimmed([w]) == head && head + [] == head;
    } else {
      var rest := LinesAreMasked(value, from + k + 1);
      var masks := NonEmptyTrimmed(Split(CrToLf(value[from + k + 1..]), '\n'));
      starts := MasksOneMore(value, from, w[..k], masks, rest);
      var parts := [w[..k]] + Split(w[k + 1..], '\n');
      assert Split(w, '\n') == parts && parts[0] == w[..k] && parts[1..] == Split(w[k + 1..], '\n');
      assert [] + masks == masks;
    }
  }

  /** The masks of a value: the value itself, then its lines that are not blank, trimmed and in order. */
  lemma MasksExactly(value: string) returns (starts: seq<nat>)
    ensures var masks := MasksOf(value);
            masks[0] == value && MasksLines(value, 0, masks[1..], starts)
  {
    hide MasksLines, NonEmptyTrimmed;
    starts := LinesAreMasked(value, 0);
    assert value[0..] == value;
    assert MasksOf(value)[1..] == NonEmptyTrimmed(Split(CrToLf(value), '\n'));
  }

  // ----- Printed commands -----

  /** The budgets of a session leave room for one more command line. */
  predicate HasRoom(s: State, line: string, limits: Limits)
  {
    && |Bytes(line)| <= limits.lineBytes && s.bytes + |Bytes(line)| <= limits.streamBytes
    && s.lines < limits.streamLines && s.commands < limits.commands
  }

  function Counted(s: State, line: string): State
  {
    s.(bytes := s.bytes + |Bytes(line)|, lines := s.lines + 1, commands := s.commands + 1)
  }

  /** A session that runs commands meets the printed line of a command and has room for it. */
  predicate Meets(s: State, c: RawCommand, limits: Limits)
  {
    s.token.None? && Printable(c, limits, None) && HasRoom(s, Print(c), limits)
  }

  /** The command names in the order in which a session looks for them. */
  const NAMES := [
    "add-mask", "error", "warning", "notice", "group", "endgroup", "debug", "stop-commands", "add-matcher",
    "remove-matcher", "echo"]

  lemma NamesAreLower(k: nat)
    requires k < |NAMES|
    ensures Lower(NAMES[k]) == NAMES[k]
  {
    var name := NAMES[k];
    assert forall i :: 0 <= i < |name| ==> !('A' <= name[i] <= 'Z');
  }

  lemma NamesDiffer(j: nat, k: nat)
    requires j < k < |NAMES|
    ensures NAMES[j] != NAMES[k]
  {
    assert "error"[0] != "group"[0] && "error"[0] != "debug"[0] && "group"[0] != "debug"[0];
    assert "add-mask"[0] != "endgroup"[0];
  }

  /** A name is at most one of them. */
  lemma NamedOnce(name: string, k: nat)
    requires k < |NAMES| && SameLetters(name, NAMES[k])
    ensures EqIgnoreCase(name, NAMES[k]) && forall j :: 0 <= j < |NAMES| && j != k ==> !EqIgnoreCase(name, NAMES[j])
  {
    hide Lower;
    EqIgnoreCaseExactly(name, NAMES[k]);
    NamesAreLower(k);
    forall j | 0 <= j < |NAMES| && j != k
      ensures !EqIgnoreCase(name, NAMES[j])
    {
      NamesAreLower(j);
      if j < k { NamesDiffer(j, k); } else { NamesDiffer(k, j); }
    }
  }

  /** An ASCII letter or digit, a hyphen, an underscore or a dot. */
  predicate Plain(c: char)
  {
    IsDigit(c) || 'a' <= LowerChar(c) <= 'z' || c in "-_."
  }

  /** A stop token: short, of plain characters, and no command that already means something. */
  predicate AcceptableToken(token: string, limits: Limits)
  {
    && 0 < |token| <= limits.nameBytes && (forall i :: 0 <= i < |token| ==> Plain(token[i]))
    && (forall k :: 0 <= k < |NAMES| ==> !SameLetters(token, NAMES[k])) && !SameLetters(token, "pause-logging")
  }

  ghost predicate NamesOwner(c: RawCommand, owner: string)
  {
    exists i :: 0 <= i < |c.properties| && SameLetters(c.properties[i].name, "owner") && c.properties[i].value == owner
  }

  /** Masks are registered all together, or none when they do not all fit. */
  ghost predicate AnswersMask(s: State, value: string, limits: Limits, t: State, r: Outcome)
  {
    && (AllWhite(value) ==> t == s && r == Ok(Command(Notice(EmptyMaskIgnored))))
    && (!AllWhite(value) ==>
          exists masks, starts ::
            && |masks| >= 1 && masks[0] == value && MasksLines(value, 0, masks[1..], starts)
            && (if s.masks + |masks| <= limits.masks
                then t == s.(masks := s.masks + |masks|) && r == Ok(Command(RegisterMask(masks)))
                else t == s && r == Err(TooManyMasks)))
  }

  /** Long tokens are masked. */
  predicate AnswersStop(s: State, token: string, limits: Limits, t: State, r: Outcome)
  {
    if !AcceptableToken(token, limits) then t == s && r == Err(InvalidStopToken)
    else if |token| <= 6 then t == s.(token := Some(token)) && r == Ok(Command(StopCommands(None)))
    else if s.masks < limits.masks
      then t == s.(token := Some(token), masks := s.masks + 1) && r == Ok(Command(StopCommands(Some(token))))
    else t == s && r == Err(TooManyMasks)
  }

  ghost predicate AnswersEcho(s: State, data: string, t: State, r: Outcome)
  {
    forall word :: IsTrim(data, word) ==>
      if SameLetters(word, "on") then t == s.(echo := true) && r == Ok(Command(EchoChanged(true)))
      else if SameLetters(word, "off") then t == s.(echo := false) && r == Ok(Command(EchoChanged(false)))
      else t == s && r == Err(InvalidEchoValue)
  }

  /** A removal names an owner or a file, not both and not neither. */
  ghost predicate AnswersRemoval(c: RawCommand, event: Event)
  {
    && (forall owner :: NamesOwner(c, owner) ==>
          event == if c.data == "" then RemoveMatcherOwner(owner) else Notice(InvalidMatcherRemoval))
    && ((forall owner :: !NamesOwner(c, owner)) ==>
          event == if c.data != "" then RemoveMatcherFile(c.data) else Notice(InvalidMatcherRemoval))
  }

  /** The event of each command, and the state after it. */
  ghost predicate Answers(s: State, c: RawCommand, line: string, limits: Limits, enhanced: bool, t: State, r: Outcome)
  {
    && (SameLetters(c.name, "add-mask") ==> AnswersMask(s, c.data, limits, t, r))
    && (SameLetters(c.name, "error") ==> t == s && r == Ok(Command(Annotation(ErrorLevel, c.data, Normalize(c.properties)))))
    && (SameLetters(c.name, "warning") ==> t == s && r == Ok(Command(Annotation(WarningLevel, c.data, Normalize(c.properties)))))
    && (SameLetters(c.name, "notice") ==>
          t == s && r == Ok(if enhanced then Command(Annotation(NoticeLevel, c.data, Normalize(c.properties))) else Output(line)))
    && (SameLetters(c.name, "group") ==> t == s && r == Ok(Command(BeginGroup(c.data))))
    && (SameLetters(c.name, "endgroup") ==> t == s && r == Ok(Command(EndGroup)))
    && (SameLetters(c.name, "debug") ==> t == s && r == Ok(Command(Debug(c.data))))
    && (SameLetters(c.name, "stop-commands") ==> AnswersStop(s, c.data, limits, t, r))
    && (SameLetters(c.name, "add-matcher") ==>
          t == s && r == Ok(Command(if c.data == "" then Notice(MissingMatcherPath) else AddMatcher(c.data))))
    && (SameLetters(c.name, "remove-matcher") ==> t == s && r.Ok? && r.value.Command? && AnswersRemoval(c, r.value.event))
    && (SameLetters(c.name, "echo") ==> AnswersEcho(s, c.data, t, r))
  }

  lemma BlankExactly(value: string)
    ensures Trim(value) == "" <==> AllWhite(value)
  {
    hide Trim, IsTrim, AllWhite;
    TrimExactly(value, Trim(value));
    BlankTrims(value, Trim(value));
  }

  lemma AddMaskAnswers(s: State, value: string, limits: Limits)
    ensures var (t, r) := AddMask(s, value, limits); AnswersMask(s, value, limits, t, r)
  {
    hide MasksLines, Trim, AllWhite, MasksOf;
    BlankExactly(value);
    var starts := MasksExactly(value);
    var masks := MasksOf(value);
    assert |masks| >= 1 by { MasksNotEmpty(value); }
  }

  lemma MasksNotEmpty(value: string)
    ensures |MasksOf(value)| >= 1
  {
  }

  lemma RegisteredExactly(name: string)
    ensures IsRegistered(name) <==> exists k :: 0 <= k < |NAMES| && SameLetters(name, NAMES[k])
  {
    hide SameLetters, EqIgnoreCase;
    forall k | 0 <= k < |NAMES|
      ensures EqIgnoreCase(NAMES[k], name) <==> SameLetters(name, NAMES[k])
    {
      Symmetric(NAMES[k], name);
      EqIgnoreCaseExactly(name, NAMES[k]);
    }
    assert forall i :: 0 <= i < |REGISTERED| ==> REGISTERED[i] in NAMES;
    assert forall k :: 0 <= k < |NAMES| ==> NAMES[k] in REGISTERED;
  }

  lemma TokenExactly(token: string, limits: Limits)
    ensures ValidStopToken(token, limits.nameBytes) <==> AcceptableToken(token, limits)
    ensures ValidStopToken(token, limits.nameBytes) ==> |Bytes(token)| == |token|
  {
    hide IsRegistered, SameLetters, EqIgnoreCase, Bytes;
    RegisteredExactly(token);
    EqIgnoreCaseExactly(token, "pause-logging");
    assert forall c :: TokenChar(c) <==> Plain(c);
    if ValidStopToken(token, limits.nameBytes) {
      AsciiLength(token);
    }
  }

  lemma StopAnswers(s: State, token: string, limits: Limits)
    ensures var (t, r) := Stop(s, token, limits); AnswersStop(s, token, limits, t, r)
  {
    hide ValidStopToken, AcceptableToken, Bytes;
    TokenExactly(token, limits);
  }

  lemma EchoWords(word: string)
    ensures Lower(word) == "on" <==> SameLetters(word, "on")
    ensures Lower(word) == "off" <==> SameLetters(word, "off")
  {
    assert Lower("on") == "on" && Lower("off") == "off";
    EqIgnoreCaseExactly(word, "on");
    EqIgnoreCaseExactly(word, "off");
  }

  lemma EchoAnswers(s: State, data: string)
    ensures var (t, r) := match EchoValue(data)
                          case None => (s, Err(InvalidEchoValue))
                          case Some(enabled) => (s.(echo := enabled), Ok(Command(EchoChanged(enabled))));
            AnswersEcho(s, data, t, r)
  {
    hide Trim, IsTrim, SameLetters, Lower;
    forall word | IsTrim(data, word)
      ensures word == Trim(data)
    {
      TrimExactly(data, word);
    }
    EchoWords(Trim(data));
  }

  lemma RemovalAnswers(c: RawCommand, limits: Limits)
    requires WellFormed(c, limits, None)
    ensures AnswersRemoval(c, RemoveMatcher(c))
  {
    hide SameLetters, EqIgnoreCase, Bytes;
    forall i | 0 <= i < |c.properties|
      ensures SameLetters(c.properties[i].name, "owner") <==> EqIgnoreCase(c.properties[i].name, "owner")
    {
      EqIgnoreCaseExactly(c.properties[i].name, "owner");
    }
    forall i, j | 0 <= i < j < |c.properties|
      ensures !(EqIgnoreCase(c.properties[i].name, "owner") && EqIgnoreCase(c.properties[j].name, "owner"))
    {
      SameAsOwner(c.properties[i].name, c.properties[j].name);
    }
    var k := Position(c.properties, "owner");
    if k < |c.properties| {
      assert NamesOwner(c, c.properties[k].value) && c.properties[k].value != "";
      assert forall owner :: NamesOwner(c, owner) ==> owner == c.properties[k].value;
    } else {
      assert forall owner :: !NamesOwner(c, owner);
    }
  }

  lemma SameAsOwner(a: string, b: string)
    ensures EqIgnoreCase(a, "owner") && EqIgnoreCase(b, "owner") ==> EqIgnoreCase(a, b)
  {
  }

  /** Every registered command, whatever the case of its name, does what its name says: a running session with room
      counts one command and answers as listed. */
  lemma CommandAnswers(s: State, line: string, c: RawCommand, limits: Limits, enhanced: bool)
    requires s.token.None? && HasRoom(s, line, limits) && ParseCommand(line, limits, None) == Ok(Some(c))
    ensures var (t, r) := Process(s, Decoded(line), limits, enhanced);
            Answers(Counted(s, line), c, line, limits, enhanced, t, r)
  {
    hide ParseCommand, SameLetters, EqIgnoreCase, AnswersMask, AnswersStop, AnswersEcho, AnswersRemoval, AddMask, Stop,
         EchoValue, RemoveMatcher, Normalize, WellFormed, Bytes;
    var base := Counted(s, line);
    assert Process(s, Decoded(line), limits, enhanced) == ProcessCommand(base, c, line, limits, enhanced);
    forall k | 0 <= k < |NAMES| && SameLetters(c.name, NAMES[k])
      ensures EqIgnoreCase(c.name, NAMES[k]) && forall j :: 0 <= j < |NAMES| && j != k ==> !EqIgnoreCase(c.name, NAMES[j])
    {
      NamedOnce(c.name, k);
    }
    AddMaskAnswers(base, c.data, limits);
    StopAnswers(base, c.data, limits);
    EchoAnswers(base, c.data);
    ParsedIsWellFormed(line, limits, None, c);
    RemovalAnswers(c, limits);
    hide Process;
    assert NAMES[0] == "add-mask" && NAMES[1] == "error" && NAMES[2] == "warning" && NAMES[3] == "notice" && NAMES[4] == "group";
    assert NAMES[5] == "endgroup" && NAMES[6] == "debug" && NAMES[7] == "stop-commands" && NAMES[8] == "add-matcher";
    assert NAMES[9] == "remove-matcher" && NAMES[10] == "echo";
  }

  /** In particular on the printed line of every printable command. */
  lemma PrintedCommandAnswers(s: State, c: RawCommand, limits: Limits, enhanced: bool)
    requires Meets(s, c, limits)
    ensures var (t, r) := Process(s, Decoded(Print(c)), limits, enhanced);
            Answers(Counted(s, Print(c)), c, Print(c), limits, enhanced, t, r)
  {
    hide Process, Print, Printable, Answers, HasRoom;
    ParseOfPrint(c, limits, None);
    CommandAnswers(s, Print(c), c, limits, enhanced);
  }

  // ----- Lines that are not commands -----

  /** A line that carries no command comes out as it is, and only the line is counted. */
  lemma OrdinaryLine(s: State, line: string, limits: Limits, enhanced: bool)
    requires ParseCommand(line, limits, s.token) == Ok(None) && HasRoom(s, line, limits)
    ensures Process(s, Decoded(line), limits, enhanced) ==
              (s.(bytes := s.bytes + |Bytes(line)|, lines := s.lines + 1), Ok(Output(line)))
  {
    hide ParseCommand, Bytes;
  }

  /** A stopped session counts every command line and heeds its token only. */
  lemma StoppedCommand(s: State, line: string, c: RawCommand, limits: Limits, enhanced: bool)
    requires s.token.Some? && ParseCommand(line, limits, s.token) == Ok(Some(c)) && HasRoom(s, line, limits)
    ensures Process(s, Decoded(line), limits, enhanced) ==
              if SameLetters(c.name, s.token.value) then (Counted(s, line).(token := None), Ok(Command(ResumeCommands)))
              else (Counted(s, line), Ok(Output(line)))
  {
    hide ParseCommand, Bytes, SameLetters, EqIgnoreCase;
    EqIgnoreCaseExactly(c.name, s.token.value);
  }
}

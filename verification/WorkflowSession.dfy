/** One step's output stream (`ActionsWorkflowCommandSession` in
    crates/automata-ci-actions-runtime/src/workflow_command.rs). */
module WorkflowSession {

  import opened Text
  import opened Utf8
  import opened WorkflowCommands
  import opened AnnotationLocations

  /** A captured line: decoded text, or bytes that are not UTF-8. */
  datatype Source = Decoded(text: string) | Undecodable(length: nat)

  function Length(source: Source): nat
  {
    match source
    case Decoded(text) => |Bytes(text)|
    case Undecodable(length) => length
  }

  datatype Level = ErrorLevel | WarningLevel | NoticeLevel

  datatype NoticeKind = EmptyMaskIgnored | MissingMatcherPath | InvalidMatcherRemoval

  datatype Event =
    | RegisterMask(masks: seq<string>)
    | Annotation(level: Level, message: string, properties: seq<Property>)
    | BeginGroup(title: string)
    | EndGroup
    | Debug(message: string)
    | StopCommands(tokenMask: Option<string>)
    | ResumeCommands
    | AddMatcher(file: string)
    | RemoveMatcherOwner(owner: string)
    | RemoveMatcherFile(file: string)
    | EchoChanged(enabled: bool)
    | Notice(kind: NoticeKind)

  datatype WorkflowLine = Output(text: string) | Command(event: Event)

  type Outcome = Result<WorkflowLine, CommandError>

  datatype State = State(
    bytes: nat, lines: nat, commands: nat, masks: nat, token: Option<string>, echo: bool)

  const START := State(0, 0, 0, 0, None, false)

  // ----- Commands -----

  function CrToLf(s: string): string
  {
    seq(|s|, i requires 0 <= i < |s| => if s[i] == '\r' then '\n' else s[i])
  }

  function NonEmptyTrimmed(parts: seq<string>): seq<string>
  {
    if parts == [] then []
    else if Trim(parts[0]) == "" then NonEmptyTrimmed(parts[1..])
    else [Trim(parts[0])] + NonEmptyTrimmed(parts[1..])
  }

  /** The value itself and each of its non-blank lines, trimmed. */
  function MasksOf(value: string): seq<string>
  {
    [value] + NonEmptyTrimmed(Split(CrToLf(value), '\n'))
  }

  function EchoValue(data: string): Option<bool>
  {
    var t := Lower(Trim(data));
    if t == "on" then Some(true) else if t == "off" then Some(false) else None
  }

  function AddMask(s: State, value: string, limits: Limits): (State, Outcome)
  {
    if Trim(value) == "" then (s, Ok(Command(Notice(EmptyMaskIgnored)))) else
      var masks := MasksOf(value);
      if s.masks + |masks| > limits.masks then (s, Err(TooManyMasks))
      else (s.(masks := s.masks + |masks|), Ok(Command(RegisterMask(masks))))
  }

  function Stop(s: State, token: string, limits: Limits): (State, Outcome)
  {
    if !ValidStopToken(token, limits.nameBytes) then (s, Err(InvalidStopToken))
    else if |Bytes(token)| <= 6 then (s.(token := Some(token)), Ok(Command(StopCommands(None))))
    else if s.masks + 1 > limits.masks then (s, Err(TooManyMasks))
    else (s.(token := Some(token), masks := s.masks + 1), Ok(Command(StopCommands(Some(token)))))
  }

  function RemoveMatcher(raw: RawCommand): Event
  {
    var owner := AnnotationLocations.Value(raw.properties, "owner");
    var named := owner.Some? && owner.value != "";
    if named && raw.data == "" then RemoveMatcherOwner(owner.value)
    else if !named && raw.data != "" then RemoveMatcherFile(raw.data)
    else Notice(InvalidMatcherRemoval)
  }

  function AnnotationOf(level: Level, raw: RawCommand): Event
  {
    Annotation(level, raw.data, Normalize(raw.properties))
  }

  /** `process_command`. */
  function ProcessCommand(s: State, raw: RawCommand, line: string, limits: Limits, enhanced: bool): (State, Outcome)
  {
    if EqIgnoreCase(raw.name, "add-mask") then AddMask(s, raw.data, limits)
    else if EqIgnoreCase(raw.name, "error") then (s, Ok(Command(AnnotationOf(ErrorLevel, raw))))
    else if EqIgnoreCase(raw.name, "warning") then (s, Ok(Command(AnnotationOf(WarningLevel, raw))))
    else if EqIgnoreCase(raw.name, "notice") then
      if enhanced then (s, Ok(Command(AnnotationOf(NoticeLevel, raw)))) else (s, Ok(Output(line)))
    else if EqIgnoreCase(raw.name, "group") then (s, Ok(Command(BeginGroup(raw.data))))
    else if EqIgnoreCase(raw.name, "endgroup") then (s, Ok(Command(EndGroup)))
    else if EqIgnoreCase(raw.name, "debug") then (s, Ok(Command(Debug(raw.data))))
    else if EqIgnoreCase(raw.name, "stop-commands") then Stop(s, raw.data, limits)
    else if EqIgnoreCase(raw.name, "add-matcher") then
      (s, Ok(Command(if raw.data == "" then Notice(MissingMatcherPath) else AddMatcher(raw.data))))
    else if EqIgnoreCase(raw.name, "remove-matcher") then (s, Ok(Command(RemoveMatcher(raw))))
    else if EqIgnoreCase(raw.name, "echo") then
      match EchoValue(raw.data)
      case None => (s, Err(InvalidEchoValue))
      case Some(enabled) => (s.(echo := enabled), Ok(Command(EchoChanged(enabled))))
    else (s, Ok(Output(line)))
  }

  // ----- Lines -----

  function ObserveLine(s: State, length: nat, limits: Limits): Option<CommandError>
  {
    if length > limits.lineBytes then Some(LineTooLong)
    else if s.bytes + length > limits.streamBytes then Some(StreamTooLarge)
    else if s.lines + 1 > limits.streamLines then Some(TooManyLines)
    else None
  }

  /** A line while commands are stopped: only the token's own command has an effect. */
  function ProcessStopped(s: State, line: string, token: string, limits: Limits): (State, Outcome)
  {
    match ParseCommand(line, limits, Some(token))
    case Err(e) => (s, Err(e))
    case Ok(None) => (s, Ok(Output(line)))
    case Ok(Some(raw)) =>
      if s.commands + 1 > limits.commands then (s, Err(TooManyCommands))
      else
        var t := s.(commands := s.commands + 1);
        if EqIgnoreCase(raw.name, token) then (t.(token := None), Ok(Command(ResumeCommands)))
        else (t, Ok(Output(line)))
  }

  function ProcessRunning(s: State, line: string, limits: Limits, enhanced: bool): (State, Outcome)
  {
    match ParseCommand(line, limits, None)
    case Err(e) => (s, Err(e))
    case Ok(None) => (s, Ok(Output(line)))
    case Ok(Some(raw)) =>
      if s.commands + 1 > limits.commands then (s, Err(TooManyCommands))
      else ProcessCommand(s.(commands := s.commands + 1), raw, line, limits, enhanced)
  }

  /** `process_line`. Counters advance even when the line is then refused. */
  function Process(s: State, source: Source, limits: Limits, enhanced: bool): (State, Outcome)
  {
    var length := Length(source);
    var refused := ObserveLine(s, length, limits);
    if refused.Some? then (s, Err(refused.value))
    else
      var t := s.(bytes := s.bytes + length, lines := s.lines + 1);
      match source
      case Undecodable(_) => (t, Err(NonUtf8))
      case Decoded(line) =>
        if t.token.Some? then ProcessStopped(t, line, t.token.value, limits)
        else ProcessRunning(t, line, limits, enhanced)
  }

  class Session {
    const limits: Limits
    const enhanced: bool
    var observedBytes: nat
    var observedLines: nat
    var observedCommands: nat
    var registeredMasks: nat
    var stoppedToken: Option<string>
    var echoEnabled: bool

    function Snapshot(): State
      reads this
    {
      State(observedBytes, observedLines, observedCommands, registeredMasks, stoppedToken, echoEnabled)
    }

    constructor (limits: Limits, enhanced: bool)
      ensures this.limits == limits && this.enhanced == enhanced && Snapshot() == START
    {
      this.limits, this.enhanced := limits, enhanced;
      observedBytes, observedLines, observedCommands, registeredMasks := 0, 0, 0, 0;
      stoppedToken, echoEnabled := None, false;
    }

    method ObserveCommand() returns (r: Option<CommandError>)
      modifies this`observedCommands
      ensures old(observedCommands) + 1 > limits.commands ==>
                r == Some(TooManyCommands) && observedCommands == old(observedCommands)
      ensures old(observedCommands) + 1 <= limits.commands ==>
                r == None && observedCommands == old(observedCommands) + 1
    {
      if observedCommands + 1 > limits.commands {
        return Some(TooManyCommands);
      }
      observedCommands := observedCommands + 1;
      r := None;
    }

    /** Registers masks, or refuses and registers none. */
    method RegisterMaskCount(count: nat) returns (r: Option<CommandError>)
      modifies this`registeredMasks
      ensures old(registeredMasks) + count > limits.masks ==>
                r == Some(TooManyMasks) && registeredMasks == old(registeredMasks)
      ensures old(registeredMasks) + count <= limits.masks ==>
                r == None && registeredMasks == old(registeredMasks) + count
    {
      if registeredMasks + count > limits.masks {
        return Some(TooManyMasks);
      }
      registeredMasks := registeredMasks + count;
      r := None;
    }

    method RunCommand(raw: RawCommand, line: string) returns (r: Outcome)
      modifies this
      ensures (Snapshot(), r) == ProcessCommand(old(Snapshot()), raw, line, limits, enhanced)
      ensures unchanged(`observedBytes) && unchanged(`observedLines) && unchanged(`observedCommands)
    {
      hide ParseCommand, Normalize, EqIgnoreCase, Trim, MasksOf, ValidStopToken;
      if EqIgnoreCase(raw.name, "add-mask") {
        if Trim(raw.data) == "" {
          return Ok(Command(Notice(EmptyMaskIgnored)));
        }
        var refused := RegisterMaskCount(|MasksOf(raw.data)|);
        return if refused.Some? then Err(refused.value) else Ok(Command(RegisterMask(MasksOf(raw.data))));
      }
      if EqIgnoreCase(raw.name, "error") {
        return Ok(Command(AnnotationOf(ErrorLevel, raw)));
      }
      if EqIgnoreCase(raw.name, "warning") {
        return Ok(Command(AnnotationOf(WarningLevel, raw)));
      }
      if EqIgnoreCase(raw.name, "notice") {
        return Ok(if enhanced then Command(AnnotationOf(NoticeLevel, raw)) else Output(line));
      }
      if EqIgnoreCase(raw.name, "group") {
        return Ok(Command(BeginGroup(raw.data)));
      }
      if EqIgnoreCase(raw.name, "endgroup") {
        return Ok(Command(EndGroup));
      }
      if EqIgnoreCase(raw.name, "debug") {
        return Ok(Command(Debug(raw.data)));
      }
      if EqIgnoreCase(raw.name, "stop-commands") {
        r := StopCommandsOn(raw.data);
        return;
      }
      if EqIgnoreCase(raw.name, "add-matcher") {
        return Ok(Command(if raw.data == "" then Notice(MissingMatcherPath) else AddMatcher(raw.data)));
      }
      if EqIgnoreCase(raw.name, "remove-matcher") {
        return Ok(Command(RemoveMatcher(raw)));
      }
      if EqIgnoreCase(raw.name, "echo") {
        var enabled := EchoValue(raw.data);
        if enabled.None? {
          return Err(InvalidEchoValue);
        }
        echoEnabled := enabled.value;
        return Ok(Command(EchoChanged(enabled.value)));
      }
      r := Ok(Output(line));
    }

    method StopCommandsOn(token: string) returns (r: Outcome)
      modifies this`stoppedToken, this`registeredMasks
      ensures (Snapshot(), r) == Stop(old(Snapshot()), token, limits)
    {
      hide ValidStopToken, Bytes;
      if !ValidStopToken(token, limits.nameBytes) {
        return Err(InvalidStopToken);
      }
      var mask := None;
      if |Bytes(token)| > 6 {
        var refused := RegisterMaskCount(1);
        if refused.Some? {
          return Err(refused.value);
        }
        mask := Some(token);
      }
      stoppedToken := Some(token);
      r := Ok(Command(StopCommands(mask)));
    }

    method ProcessLine(source: Source) returns (r: Outcome)
      modifies this
      ensures (Snapshot(), r) == Process(old(Snapshot()), source, limits, enhanced)
      ensures Length(source) > limits.lineBytes ==> r == Err(LineTooLong) && Snapshot() == old(Snapshot())
      ensures Length(source) <= limits.lineBytes && old(observedBytes) + Length(source) > limits.streamBytes ==>
                r == Err(StreamTooLarge) && Snapshot() == old(Snapshot())
      ensures Length(source) <= limits.lineBytes && old(observedBytes) + Length(source) <= limits.streamBytes
              && old(observedLines) >= limits.streamLines ==>
                r == Err(TooManyLines) && Snapshot() == old(Snapshot())
      ensures Length(source) <= limits.lineBytes && old(observedBytes) + Length(source) <= limits.streamBytes
              && old(observedLines) < limits.streamLines ==>
                && observedBytes == old(observedBytes) + Length(source) && observedLines == old(observedLines) + 1
                && (source.Undecodable? ==> r == Err(NonUtf8) && observedCommands == old(observedCommands))
    {
      hide ParseCommand, ProcessCommand, EqIgnoreCase, Bytes;
      var length := Length(source);
      if length > limits.lineBytes {
        return Err(LineTooLong);
      }
      if observedBytes + length > limits.streamBytes {
        return Err(StreamTooLarge);
      }
      if observedLines + 1 > limits.streamLines {
        return Err(TooManyLines);
      }
      observedBytes, observedLines := observedBytes + length, observedLines + 1;
      if source.Undecodable? {
        return Err(NonUtf8);
      }
      var line := source.text;
      if stoppedToken.Some? {
        var parsed := ParseCommand(line, limits, Some(stoppedToken.value));
        if parsed.Err? {
          return Err(parsed.error);
        }
        if parsed.value.Some? {
          var refused := ObserveCommand();
          if refused.Some? {
            return Err(refused.value);
          }
          if EqIgnoreCase(parsed.value.value.name, stoppedToken.value) {
            stoppedToken := None;
            return Ok(Command(ResumeCommands));
          }
        }
        return Ok(Output(line));
      }
      var parsed := ParseCommand(line, limits, None);
      if parsed.Err? {
        return Err(parsed.error);
      }
      if parsed.value.None? {
        return Ok(Output(line));
      }
      var refused := ObserveCommand();
      if refused.Some? {
        return Err(refused.value);
      }
      r := RunCommand(parsed.value.value, line);
    }
  }

  // ----- Whole streams -----

  /** The outcomes of a stream, in order. */
  function Outcomes(s: State, stream: seq<Source>, limits: Limits, enhanced: bool): (r: seq<Outcome>)
    ensures |r| == |stream|
    decreases |stream|
  {
    if stream == [] then [] else
      var (t, r) := Process(s, stream[0], limits, enhanced);
      [r] + Outcomes(t, stream[1..], limits, enhanced)
  }

  function Final(s: State, stream: seq<Source>, limits: Limits, enhanced: bool): State
    decreases |stream|
  {
    if stream == [] then s else Final(Process(s, stream[0], limits, enhanced).0, stream[1..], limits, enhanced)
  }

  function MaskCount(r: Outcome): nat
  {
    match r
    case Ok(Command(RegisterMask(masks))) => |masks|
    case Ok(Command(StopCommands(mask))) => if mask.Some? then 1 else 0
    case _ => 0
  }

  function TotalMasks(rs: seq<Outcome>): nat
  {
    if rs == [] then 0 else MaskCount(rs[0]) + TotalMasks(rs[1..])
  }

  /** The stop and resume events of a stream, in order. */
  function Toggles(rs: seq<Outcome>): seq<Event>
  {
    if rs == [] then []
    else match rs[0]
      case Ok(Command(StopCommands(mask))) => [StopCommands(mask)] + Toggles(rs[1..])
      case Ok(Command(ResumeCommands)) => [ResumeCommands] + Toggles(rs[1..])
      case _ => Toggles(rs[1..])
  }

  /** Budgets and tokens of a reachable session. */
  predicate Bounded(s: State, limits: Limits)
  {
    && s.bytes <= limits.streamBytes && s.lines <= limits.streamLines
    && s.commands <= limits.commands && s.commands <= s.lines && s.masks <= limits.masks
    && (s.token.Some? ==> ValidStopToken(s.token.value, limits.nameBytes))
  }

  /** One line: budgets hold, masks are counted exactly, and only a stop or a resume moves the token. */
  lemma ProcessKeeps(s: State, source: Source, limits: Limits, enhanced: bool)
    requires Bounded(s, limits)
    ensures var (t, r) := Process(s, source, limits, enhanced);
            && Bounded(t, limits) && t.masks == s.masks + MaskCount(r)
            && (r.Ok? && r.value.Command? && r.value.event.StopCommands? ==> s.token.None? && t.token.Some?)
            && (r == Ok(Command(ResumeCommands)) ==> s.token.Some? && t.token.None?)
            && (t.token == s.token || Toggles([r]) != [])
  {
    hide ParseCommand, Normalize, EqIgnoreCase, Trim, MasksOf, ValidStopToken, Bytes;
  }

  /** While stopped, a processed line comes out unchanged or resumes on the token. */
  lemma StoppedLines(s: State, line: string, limits: Limits, enhanced: bool)
    requires s.token.Some?
    ensures var (t, r) := Process(s, Decoded(line), limits, enhanced);
            r.Ok? ==>
              || (r.value == Output(line) && t.token == s.token)
              || (&& r.value == Command(ResumeCommands) && t.token.None?
                  && exists raw: RawCommand :: ParseCommand(line, limits, s.token) == Ok(Some(raw)) && EqIgnoreCase(raw.name, s.token.value))
  {
    hide ParseCommand, EqIgnoreCase, Bytes;
    var parsed := ParseCommand(line, limits, s.token);
    if parsed.Ok? && parsed.value.Some? {
      assert parsed == Ok(Some(parsed.value.value));
    }
  }

  /** No line that carries a registered command can resume a session. */
  lemma RegisteredNeverResumes(s: State, line: string, raw: RawCommand, limits: Limits, enhanced: bool)
    requires Bounded(s, limits) && s.token.Some?
    requires ParseCommand(line, limits, s.token) == Ok(Some(raw)) && IsRegistered(raw.name)
    ensures Process(s, Decoded(line), limits, enhanced).1 != Ok(Command(ResumeCommands))
  {
    hide ParseCommand, Bytes, Lower;
    var i :| 0 <= i < |REGISTERED| && EqIgnoreCase(REGISTERED[i], raw.name);
    assert !EqIgnoreCase(REGISTERED[i], s.token.value);
  }

  function ResumeLine(token: string): string
  {
    "::" + token + "::"
  }

  lemma ResumeLineParses(token: string, limits: Limits)
    requires ValidStopToken(token, limits.nameBytes)
    ensures ParseCommand(ResumeLine(token), limits, Some(token)) == Ok(Some(RawCommand(token, [], "")))
  {
    hide ParseCommand, Lower, IsRegistered;
    var c := RawCommand(token, [], "");
    AsciiLength(token);
    AsciiLength("");
    NoPropertiesGood(limits);
    assert Printable(c, limits, Some(token));
    ParseOfPrint(c, limits, Some(token));
    assert Print(c) == ResumeLine(token);
  }

  /** Every accepted token resumes the session through its own command, exactly while budgets remain. */
  lemma TokenResumes(s: State, limits: Limits, enhanced: bool)
    requires Bounded(s, limits) && s.token.Some?
    ensures var line := ResumeLine(s.token.value);
            var (t, r) := Process(s, Decoded(line), limits, enhanced);
            r == Ok(Command(ResumeCommands)) <==>
              ObserveLine(s, |Bytes(line)|, limits).None? && s.commands + 1 <= limits.commands
  {
    hide ParseCommand, Bytes, ValidStopToken, Lower;
    ResumeLineParses(s.token.value, limits);
  }

  /** Over every stream: budgets hold, and the registered masks are those emitted in events. */
  lemma {:induction false} MasksAreEmitted(s: State, stream: seq<Source>, limits: Limits, enhanced: bool)
    requires Bounded(s, limits)
    ensures Bounded(Final(s, stream, limits, enhanced), limits)
    ensures Final(s, stream, limits, enhanced).masks == s.masks + TotalMasks(Outcomes(s, stream, limits, enhanced))
    decreases |stream|
  {
    hide Process, Bounded, MaskCount;
    if stream != [] {
      ProcessKeeps(s, stream[0], limits, enhanced);
      MasksAreEmitted(Process(s, stream[0], limits, enhanced).0, stream[1..], limits, enhanced);
    }
  }

  /** Stops and resumes alternate, starting with a stop when the session runs. */
  predicate Alternates(events: seq<Event>, stopped: bool)
  {
    events == [] || (events[0].ResumeCommands? == stopped && Alternates(events[1..], !stopped))
  }

  lemma {:induction false} StopsAlternate(s: State, stream: seq<Source>, limits: Limits, enhanced: bool)
    requires Bounded(s, limits)
    ensures Alternates(Toggles(Outcomes(s, stream, limits, enhanced)), s.token.Some?)
    ensures Final(s, stream, limits, enhanced).token.Some? ==
              if |Toggles(Outcomes(s, stream, limits, enhanced))| % 2 == 0 then s.token.Some? else s.token.None?
    decreases |stream|
  {
    hide Process, Bounded, MaskCount;
    if stream != [] {
      ProcessKeeps(s, stream[0], limits, enhanced);
      var (t, r) := Process(s, stream[0], limits, enhanced);
      StopsAlternate(t, stream[1..], limits, enhanced);
      var rest := Outcomes(t, stream[1..], limits, enhanced);
      assert Outcomes(s, stream, limits, enhanced) == [r] + rest && ([r] + rest)[1..] == rest;
      assert [r][1..] == [];
      assert Toggles([r] + rest) == Toggles([r]) + Toggles(rest);
      if Toggles([r]) != [] {
        assert (Toggles([r]) + Toggles(rest))[1..] == Toggles(rest);
      } else {
        assert Toggles([r]) + Toggles(rest) == Toggles(rest);
      }
    }
  }

  lemma StartIsBounded(limits: Limits)
    ensures Bounded(START, limits)
  {
  }
}

/** What holds of a job's command state over any history of completed steps
    (crates/automata-ci-actions-runtime/src/phase.rs). */
module JobHistory {

  import opened Text
  import opened NameValues
  import opened WriteHistory
  import opened CompletedSteps
  import opened ArtifactSubjects

  // ----- Well-formed job states -----

  predicate DistinctIds(records: seq<Record>)
  {
    forall i, j :: 0 <= i < j < |records| ==> records[i].id != records[j].id
  }

  /** At most one record for each owner, never empty, with names distinct up to case. */
  predicate GoodRecords(records: seq<Record>)
  {
    && DistinctIds(records)
    && forall i :: 0 <= i < |records| ==> records[i].values != [] && Distinct(records[i].values, true)
  }

  predicate NoneBlocked(values: seq<NameValue>, platform: Platform)
  {
    forall i :: 0 <= i < |values| ==> !Blocked(platform, values[i].name)
  }

  /** What every reachable job state satisfies. */
  predicate WellFormed(s: JobState)
  {
    && Distinct(s.environment, Folded(s.platform)) && NoneBlocked(s.environment, s.platform)
    && NoRepeats(s.prependPath)
    && GoodRecords(s.outputs) && GoodRecords(s.actionStates)
    && StrictlySorted(s.subjects) && |s.subjects| <= MAX_SUBJECTS
  }

  predicate WithinLimits(s: JobState, limits: Limits)
  {
    && |s.environment| <= limits.environmentEntries && |s.prependPath| <= limits.pathEntries
    && |s.outputs| <= limits.steps && |s.actionStates| <= limits.actionStates
    && TotalBytes(s) <= limits.aggregateBytes
  }

  // ----- Environment -----

  lemma {:induction false} UnblockedIsUnblocked(ws: seq<NameValue>, platform: Platform)
    ensures NoneBlocked(Unblocked(ws, platform), platform)
  {
    hide Blocked;
    if ws != [] { UnblockedIsUnblocked(ws[..|ws| - 1], platform); }
  }

  lemma {:induction false} WritesKeepUnblocked(values: seq<NameValue>, ws: seq<NameValue>, platform: Platform, folded: bool)
    requires NoneBlocked(values, platform) && NoneBlocked(ws, platform)
    ensures NoneBlocked(WriteAll(values, ws, folded), platform)
    decreases |ws|
  {
    hide Blocked, Key;
    if ws != [] {
      WritesKeepUnblocked(values, ws[..|ws| - 1], platform, folded);
    }
  }

  // ----- Records -----

  lemma {:induction false} OthersMembers(records: seq<Record>, id: string)
    requires GoodRecords(records)
    ensures GoodRecords(Others(records, id))
    ensures forall i :: 0 <= i < |Others(records, id)| ==> Others(records, id)[i].id != id && Others(records, id)[i] in records
  {
    hide Distinct;
    if records != [] {
      var rest := records[1..];
      assert forall i :: 0 <= i < |rest| ==> rest[i] == records[i + 1];
      OthersMembers(rest, id);
      var others := Others(rest, id);
      forall i | 0 <= i < |others|
        ensures others[i].id != records[0].id
      {
        var j :| 0 <= j < |rest| && rest[j] == others[i];
        assert records[j + 1] == others[i];
      }
    }
  }

  lemma {:induction false} NoOthers(records: seq<Record>, id: string)
    requires forall i :: 0 <= i < |records| ==> records[i].id != id
    ensures Others(records, id) == records
  {
    if records != [] {
      NoOthers(records[1..], id);
    }
  }

  lemma {:induction false} OthersConcat(a: seq<Record>, b: seq<Record>, id: string)
    ensures Others(a + b, id) == Others(a, id) + Others(b, id)
  {
    if a == [] {
      assert a + b == b;
    } else {
      assert (a + b)[1..] == a[1..] + b;
      OthersConcat(a[1..], b, id);
    }
  }

  lemma WithoutFirstCons(first: Record, rest: seq<Record>, id: string)
    ensures WithoutFirst([first] + rest, id) == if first.id == id then rest else [first] + WithoutFirst(rest, id)
  {
    var all := [first] + rest;
    assert all[1..] == rest;
    var k := RecordAt(rest, id);
    if first.id != id && k < |rest| {
      assert all[..k + 1] == [first] + rest[..k];
      assert all[k + 2..] == rest[k + 1..];
    }
  }

  /** With one record for each owner, removing the first is removing all. */
  lemma {:induction false} WithoutFirstIsOthers(records: seq<Record>, id: string)
    requires DistinctIds(records)
    ensures WithoutFirst(records, id) == Others(records, id)
  {
    hide WithoutFirst;
    if records == [] {
      NothingWithout(id);
    } else {
      var rest := records[1..];
      assert records == [records[0]] + rest;
      WithoutFirstCons(records[0], rest, id);
      if records[0].id == id {
        NoOthers(rest, id);
        assert Others(records, id) == [] + Others(rest, id);
      } else {
        WithoutFirstIsOthers(rest, id);
      }
    }
  }

  lemma NothingWithout(id: string)
    ensures WithoutFirst([], id) == []
  {
  }

  lemma ValuesOfAppended(records: seq<Record>, id: string, values: seq<NameValue>, owner: string)
    requires forall i :: 0 <= i < |records| ==> records[i].id != id
    ensures ValuesOf(records + Recorded(id, values), owner) == if owner == id then values else ValuesOf(records, owner)
  {
    hide RecordAt;
    var all := records + Recorded(id, values);
    var k, j := RecordAt(all, owner), RecordAt(records, owner);
    assert forall i :: 0 <= i < |records| ==> all[i] == records[i];
    if values == [] {
      assert all == records;
    } else if j < |records| {
      assert all[j].id == owner;
      assert k == j;
    } else {
      assert all[|records|] == Record(id, values);
      assert k >= |records|;
    }
  }

  lemma ValuesOfCons(first: Record, rest: seq<Record>, owner: string)
    ensures ValuesOf([first] + rest, owner) == if first.id == owner then first.values else ValuesOf(rest, owner)
  {
    assert ([first] + rest)[1..] == rest;
  }

  lemma {:induction false} ValuesOfOthers(records: seq<Record>, id: string, owner: string)
    requires owner != id
    ensures ValuesOf(Others(records, id), owner) == ValuesOf(records, owner)
  {
    hide ValuesOf;
    if records != [] {
      ValuesOfOthers(records[1..], id, owner);
      assert records == [records[0]] + records[1..];
      ValuesOfCons(records[0], records[1..], owner);
      ValuesOfCons(records[0], Others(records[1..], id), owner);
      assert [] + Others(records[1..], id) == Others(records[1..], id);
    }
  }

  /** Replacing an owner's record: others keep theirs, the owner gets the new values. */
  lemma ReplacedRecord(records: seq<Record>, id: string, values: seq<NameValue>)
    requires GoodRecords(records) && Distinct(values, true)
    ensures var next := Others(records, id) + Recorded(id, values);
            && GoodRecords(next)
            && (forall owner :: ValuesOf(next, owner) == if owner == id then values else ValuesOf(records, owner))
            && Others(next, id) == Others(records, id)
  {
    hide Distinct, ValuesOf;
    var others := Others(records, id);
    var next := others + Recorded(id, values);
    OthersMembers(records, id);
    assert GoodRecords(next) && Others(Recorded(id, values), id) == [];
    hide GoodRecords, Others, Recorded;
    forall owner
      ensures ValuesOf(next, owner) == if owner == id then values else ValuesOf(records, owner)
    {
      ValuesOfAppended(others, id, values, owner);
      if owner != id { ValuesOfOthers(records, id, owner); }
    }
    OthersConcat(others, Recorded(id, values), id);
    NoOthers(others, id);
  }

  lemma ValuesAreDistinct(records: seq<Record>, id: string)
    requires GoodRecords(records)
    ensures Distinct(ValuesOf(records, id), true)
  {
  }

  /** The values a step's output record is rebuilt from. */
  function OutputBase(outputs: seq<Record>, scope: Scope): seq<NameValue>
  {
    if scope.phase.ActionPost? then ValuesOf(outputs, scope.stepId) else []
  }

  lemma OutputsAfter(outputs: seq<Record>, scope: Scope, ws: seq<NameValue>)
    requires GoodRecords(outputs)
    ensures var next := ApplyOutputs(outputs, scope, ws);
            && GoodRecords(next)
            && (forall owner :: ValuesOf(next, owner) ==
                  if owner == scope.stepId && !scope.phase.ActionPre? then WriteAll(OutputBase(outputs, scope), ws, true)
                  else ValuesOf(outputs, owner))
            && ApplyOutputs(next, scope, ws) == next
  {
    hide GoodRecords, ValuesOf, Others, WriteAll, Distinct;
    if !scope.phase.ActionPre? {
      var id, base := scope.stepId, OutputBase(outputs, scope);
      ValuesAreDistinct(outputs, id);
      NothingIsDistinct();
      WriteAllKeys(base, ws, true);
      var values := WriteAll(base, ws, true);
      ReplacedRecord(outputs, id, values);
      WriteAllTwice(base, ws, true);
    }
  }

  lemma NothingIsDistinct()
    ensures Distinct([], true)
  {
  }

  lemma StatesAfter(states: seq<Record>, phase: Phase, ws: seq<NameValue>)
    requires GoodRecords(states)
    ensures var next := ApplyStates(states, phase, ws);
            && GoodRecords(next)
            && (forall owner :: ValuesOf(next, owner) ==
                  if phase != RunPhase && owner == phase.invocation then WriteAll(ValuesOf(states, owner), ws, true)
                  else ValuesOf(states, owner))
            && ApplyStates(next, phase, ws) == next
  {
    hide ValuesOf, Others, WriteAll, Distinct, WithoutFirst;
    if phase != RunPhase {
      var id := phase.invocation;
      var base := ValuesOf(states, id);
      ValuesAreDistinct(states, id);
      WriteAllKeys(base, ws, true);
      var values := WriteAll(base, ws, true);
      ReplacedRecord(states, id, values);
      WriteAllTwice(base, ws, true);
      WithoutFirstIsOthers(states, id);
      WithoutFirstIsOthers(ApplyStates(states, phase, ws), id);
    }
  }

  // ----- One step -----

  /** A successful step keeps the state well formed. */
  lemma ApplyKeepsWellFormed(s: JobState, scope: Scope, c: Commands, limits: Limits, listBytes: seq<Subject> -> nat)
    requires WellFormed(s) && Apply(s, scope, c, limits, listBytes).Ok?
    ensures WellFormed(Apply(s, scope, c, limits, listBytes).value.state)
    ensures Apply(s, scope, c, limits, listBytes).value.state.platform == s.platform
  {
    hide WriteAll, PrependAll, ApplyOutputs, ApplyStates, AddSubjects, SortSubjects, Unblocked;
    hide Distinct, NoneBlocked, GoodRecords, NoRepeats, StrictlySorted, TotalBytes, Notices;
    var ws := Unblocked(c.environment, s.platform);
    WriteAllKeys(s.environment, ws, Folded(s.platform));
    UnblockedIsUnblocked(c.environment, s.platform);
    WritesKeepUnblocked(s.environment, ws, s.platform, Folded(s.platform));
    PrependAllNoRepeats(s.prependPath, c.path);
    OutputsAfter(s.outputs, scope, c.output);
    StatesAfter(s.actionStates, scope.phase, c.state);
    SubjectsAfter(s.subjects, c.subjects);
  }

  /** Replaying a completed step succeeds and yields the same state, entry order included. */
  lemma ReplayIsIdempotent(s: JobState, scope: Scope, c: Commands, limits: Limits, listBytes: seq<Subject> -> nat)
    requires WellFormed(s) && Apply(s, scope, c, limits, listBytes).Ok?
    ensures var once := Apply(s, scope, c, limits, listBytes);
            Apply(once.value.state, scope, c, limits, listBytes) == once
  {
    hide WriteAll, PrependAll, ApplyOutputs, ApplyStates, AddSubjects, SortSubjects, Unblocked;
    hide Distinct, NoneBlocked, GoodRecords, NoRepeats, StrictlySorted, TotalBytes, BlockNotices;
    WriteAllTwice(s.environment, Unblocked(c.environment, s.platform), Folded(s.platform));
    PrependAllTwice(s.prependPath, c.path);
    OutputsAfter(s.outputs, scope, c.output);
    StatesAfter(s.actionStates, scope.phase, c.state);
    SubjectsAfter(s.subjects, c.subjects);
  }

  // ----- Whole histories -----

  datatype Step = Step(scope: Scope, commands: Commands)

  function Empty(platform: Platform): JobState
  {
    JobState(platform, [], [], [], [], [])
  }

  /** The state after a history, or the first error. */
  function RunJob(platform: Platform, h: seq<Step>, limits: Limits, listBytes: seq<Subject> -> nat): Result<JobState, ApplyError>
  {
    if h == [] then Ok(Empty(platform)) else
      match RunJob(platform, h[..|h| - 1], limits, listBytes)
      case Err(e) => Err(e)
      case Ok(s) =>
        var last := h[|h| - 1];
        match Apply(s, last.scope, last.commands, limits, listBytes)
        case Err(e) => Err(e)
        case Ok(a) => Ok(a.state)
  }

  lemma EmptyIsWellFormed(platform: Platform)
    ensures WellFormed(Empty(platform))
  {
  }

  /** Every state reachable from the empty job is well formed. */
  lemma {:induction false} ReachableIsWellFormed(platform: Platform, h: seq<Step>, limits: Limits, listBytes: seq<Subject> -> nat)
    requires RunJob(platform, h, limits, listBytes).Ok?
    ensures var s := RunJob(platform, h, limits, listBytes).value; WellFormed(s) && s.platform == platform
    decreases |h|
  {
    hide Apply, WellFormed;
    if h == [] {
      EmptyIsWellFormed(platform);
    } else {
      var before, last := h[..|h| - 1], h[|h| - 1];
      ReachableIsWellFormed(platform, before, limits, listBytes);
      ApplyKeepsWellFormed(RunJob(platform, before, limits, listBytes).value, last.scope, last.commands, limits, listBytes);
    }
  }

  /** Every reachable state holds no more entries and no more bytes, truly counted, than its limits allow, and after
      any step a serialized subject list within its own limit. */
  lemma ReachableIsWithinLimits(platform: Platform, h: seq<Step>, limits: Limits, listBytes: seq<Subject> -> nat)
    requires RunJob(platform, h, limits, listBytes).Ok? && limits.aggregateBytes <= HARD_MAX_STATE_BYTES
    ensures WithinLimits(RunJob(platform, h, limits, listBytes).value, limits)
    ensures h != [] ==> listBytes(RunJob(platform, h, limits, listBytes).value.subjects) <= MAX_LIST_BYTES
  {
    hide Derive, TotalBytes, Notices;
    if h == [] {
      EmptyHasNoBytes(platform);
    }
  }

  lemma EmptyHasNoBytes(platform: Platform)
    ensures TotalBytes(Empty(platform)) == 0
  {
  }

  /** All environment writes of a history that are not blocked, in order. */
  function EnvironmentWrites(h: seq<Step>, platform: Platform): seq<NameValue>
  {
    if h == [] then []
    else EnvironmentWrites(h[..|h| - 1], platform) + Unblocked(h[|h| - 1].commands.environment, platform)
  }

  function PathWrites(h: seq<Step>): seq<string>
  {
    if h == [] then [] else PathWrites(h[..|h| - 1]) + h[|h| - 1].commands.path
  }

  /** A run or main phase of the step starts its outputs afresh. */
  predicate Resets(s: Step, id: string)
  {
    s.scope.stepId == id && (s.scope.phase == RunPhase || s.scope.phase.ActionMain?)
  }

  /** One past the last reset of the step, or zero. */
  function LastReset(h: seq<Step>, id: string): (n: nat)
    ensures n <= |h|
  {
    if h == [] then 0 else if Resets(h[|h| - 1], id) then |h| else LastReset(h[..|h| - 1], id)
  }

  /** The writes of the step's post phases from position `k` on. */
  function PostWrites(h: seq<Step>, k: nat, id: string): seq<NameValue>
  {
    if |h| <= k then [] else
      var last := h[|h| - 1];
      PostWrites(h[..|h| - 1], k, id) + if last.scope.stepId == id && last.scope.phase.ActionPost? then last.commands.output else []
  }

  /** The writes since the step's last run or main phase, and those of its later post phases. */
  function OutputWrites(h: seq<Step>, id: string): seq<NameValue>
  {
    var n := LastReset(h, id);
    (if n == 0 then [] else h[n - 1].commands.output) + PostWrites(h, n, id)
  }

  predicate Invokes(s: Step, invocation: string)
  {
    s.scope.phase != RunPhase && s.scope.phase.invocation == invocation
  }

  /** All state writes of an invocation, across its pre, main and post phases. */
  function StateWrites(h: seq<Step>, invocation: string): seq<NameValue>
  {
    if h == [] then []
    else StateWrites(h[..|h| - 1], invocation) + if Invokes(h[|h| - 1], invocation) then h[|h| - 1].commands.state else []
  }

  /** How one more step changes a step's output writes. */
  lemma OutputWritesStep(h: seq<Step>, id: string)
    requires h != []
    ensures var last, before := h[|h| - 1], OutputWrites(h[..|h| - 1], id);
            OutputWrites(h, id) ==
              if last.scope.stepId != id || last.scope.phase.ActionPre? then before
              else if last.scope.phase.ActionPost? then before + last.commands.output
              else last.commands.output
  {
    var front, last := h[..|h| - 1], h[|h| - 1];
    var n := LastReset(front, id);
    if Resets(last, id) {
      assert PostWrites(h, |h|, id) == [];
      assert last.commands.output + [] == last.commands.output;
    } else {
      assert LastReset(h, id) == n;
      var head := if n == 0 then [] else h[n - 1].commands.output;
      assert n > 0 ==> front[n - 1] == h[n - 1];
      var posts := PostWrites(front, n, id);
      assert posts + [] == posts;
      assert head + (posts + last.commands.output) == head + posts + last.commands.output;
    }
  }

  /** The steps that write outputs, each time they do. */
  function OutputOwners(h: seq<Step>): seq<string>
  {
    if h == [] then []
    else OutputOwners(h[..|h| - 1]) + if h[|h| - 1].scope.phase.ActionPre? then [] else [h[|h| - 1].scope.stepId]
  }

  /** The invocations that write action state, each time they do. */
  function StateOwners(h: seq<Step>): seq<string>
  {
    if h == [] then []
    else StateOwners(h[..|h| - 1]) + if h[|h| - 1].scope.phase == RunPhase then [] else [h[|h| - 1].scope.phase.invocation]
  }

  function Declarations(h: seq<Step>): seq<Subject>
  {
    if h == [] then [] else Declarations(h[..|h| - 1]) + h[|h| - 1].commands.subjects
  }

  /** One record for each owner in order, without the empty ones. */
  function RecordsOf(owners: seq<string>, values: string -> seq<NameValue>): seq<Record>
  {
    if owners == [] then [] else Recorded(owners[0], values(owners[0])) + RecordsOf(owners[1..], values)
  }

  function OutputsOf(h: seq<Step>): string -> seq<NameValue>
  {
    id => WriteAll([], OutputWrites(h, id), true)
  }

  function StatesOf(h: seq<Step>): string -> seq<NameValue>
  {
    id => WriteAll([], StateWrites(h, id), true)
  }

  /** The job state that a history leaves, read off the history alone: nothing in it depends on intermediate states. */
  function StateOf(platform: Platform, h: seq<Step>): JobState
  {
    JobState(
      platform,
      WriteAll([], EnvironmentWrites(h, platform), Folded(platform)),
      PrependAll([], PathWrites(h)),
      RecordsOf(KeepLast(OutputOwners(h)), OutputsOf(h)),
      RecordsOf(KeepLast(StateOwners(h)), StatesOf(h)),
      SortSubjects(Firsts(Declarations(h))))
  }

  lemma {:induction false} RecordsOfConcat(a: seq<string>, b: seq<string>, values: string -> seq<NameValue>)
    ensures RecordsOf(a + b, values) == RecordsOf(a, values) + RecordsOf(b, values)
  {
    if a == [] {
      assert a + b == b;
    } else {
      assert (a + b)[1..] == a[1..] + b;
      RecordsOfConcat(a[1..], b, values);
    }
  }

  lemma RecordsOfOne(id: string, values: string -> seq<NameValue>)
    ensures RecordsOf([id], values) == Recorded(id, values(id))
  {
    assert [id][1..] == [];
  }

  lemma {:induction false} RecordsOfSame(owners: seq<string>, f: string -> seq<NameValue>, g: string -> seq<NameValue>)
    requires forall i :: 0 <= i < |owners| ==> f(owners[i]) == g(owners[i])
    ensures RecordsOf(owners, f) == RecordsOf(owners, g)
  {
    if owners != [] { RecordsOfSame(owners[1..], f, g); }
  }

  lemma {:induction false} OthersOfRecords(owners: seq<string>, values: string -> seq<NameValue>, id: string)
    ensures Others(RecordsOf(owners, values), id) == RecordsOf(Without(owners, id), values)
  {
    if owners != [] {
      var first, rest := owners[0], owners[1..];
      OthersOfRecords(rest, values, id);
      OthersConcat(Recorded(first, values(first)), RecordsOf(rest, values), id);
      if first == id {
        assert Others(Recorded(first, values(first)), id) == [];
        assert Without(owners, id) == [] + Without(rest, id) == Without(rest, id);
      } else {
        NoOthers(Recorded(first, values(first)), id);
        RecordsOfConcat([first], Without(rest, id), values);
        RecordsOfOne(first, values);
        assert Without(owners, id) == [first] + Without(rest, id);
      }
    }
  }

  /** Replacing one owner's record moves it to the end, as its latest write does in the order of owners. */
  lemma RecordsAfterWrite(owners: seq<string>, id: string, f: string -> seq<NameValue>, g: string -> seq<NameValue>)
    requires forall x :: x != id ==> f(x) == g(x)
    ensures Others(RecordsOf(KeepLast(owners), f), id) + Recorded(id, g(id)) == RecordsOf(KeepLast(owners + [id]), g)
  {
    hide KeepLast, Others, RecordsOf;
    var kept := Without(KeepLast(owners), id);
    KeepLastSnoc(owners, id);
    OthersOfRecords(KeepLast(owners), f, id);
    forall i | 0 <= i < |kept|
      ensures f(kept[i]) == g(kept[i])
    {
      MinusMembers(KeepLast(owners), {id}, kept[i]);
    }
    RecordsOfSame(kept, f, g);
    RecordsOfConcat(kept, [id], g);
    RecordsOfOne(id, g);
  }

  /** The records of a history in the order of their owners' latest writes, with the values each owner finds. */
  ghost predicate Reflects(records: seq<Record>, owners: seq<string>, values: string -> seq<NameValue>)
  {
    records == RecordsOf(KeepLast(owners), values) && forall id :: ValuesOf(records, id) == values(id)
  }

  /** A state is that of a history. */
  ghost predicate ReflectsHistory(s: JobState, h: seq<Step>)
  {
    && s.environment == WriteAll([], EnvironmentWrites(h, s.platform), Folded(s.platform))
    && s.prependPath == PrependAll([], PathWrites(h))
    && Reflects(s.outputs, OutputOwners(h), OutputsOf(h))
    && Reflects(s.actionStates, StateOwners(h), StatesOf(h))
    && s.subjects == SortSubjects(Firsts(Declarations(h)))
  }

  lemma ReflectsIsStateOf(s: JobState, h: seq<Step>)
    requires ReflectsHistory(s, h)
    ensures s == StateOf(s.platform, h)
  {
    hide WriteAll, PrependAll, RecordsOf, KeepLast, SortSubjects, Firsts, OutputsOf, StatesOf, ValuesOf;
  }

  /** One owner's record replaced by what the longer history gives it. */
  lemma WriteReflects(records: seq<Record>, next: seq<Record>, owners: seq<string>, id: string,
                      f: string -> seq<NameValue>, g: string -> seq<NameValue>)
    requires Reflects(records, owners, f) && next == Others(records, id) + Recorded(id, g(id))
    requires forall x :: x != id ==> f(x) == g(x)
    requires forall x :: ValuesOf(next, x) == g(x)
    ensures Reflects(next, owners + [id], g)
  {
    hide ValuesOf, RecordsOf, KeepLast, Others;
    RecordsAfterWrite(owners, id, f, g);
  }

  lemma NoWriteReflects(records: seq<Record>, owners: seq<string>, f: string -> seq<NameValue>, g: string -> seq<NameValue>)
    requires Reflects(records, owners, f) && forall x :: f(x) == g(x)
    ensures Reflects(records, owners, g)
  {
    hide ValuesOf, RecordsOf, KeepLast;
    RecordsOfSame(KeepLast(owners), f, g);
  }

  lemma OutputsOfStep(front: seq<Step>, last: Step, id: string)
    ensures OutputsOf(front + [last])(id) ==
              if last.scope.stepId != id || last.scope.phase.ActionPre? then OutputsOf(front)(id)
              else WriteAll(if last.scope.phase.ActionPost? then OutputsOf(front)(id) else [], last.commands.output, true)
  {
    hide WriteAll, OutputWrites;
    assert (front + [last])[..|front|] == front;
    OutputWritesStep(front + [last], id);
    WriteAllConcat([], OutputWrites(front, id), last.commands.output, true);
  }

  lemma StatesOfStep(front: seq<Step>, last: Step, id: string)
    ensures StatesOf(front + [last])(id) ==
              if Invokes(last, id) then WriteAll(StatesOf(front)(id), last.commands.state, true) else StatesOf(front)(id)
  {
    hide WriteAll;
    assert (front + [last])[..|front|] == front;
    WriteAllConcat([], StateWrites(front, id), last.commands.state, true);
    assert StateWrites(front, id) + [] == StateWrites(front, id);
  }

  lemma OwnersStep(front: seq<Step>, last: Step)
    ensures OutputOwners(front + [last]) ==
              if last.scope.phase.ActionPre? then OutputOwners(front) else OutputOwners(front) + [last.scope.stepId]
    ensures StateOwners(front + [last]) ==
              if last.scope.phase == RunPhase then StateOwners(front) else StateOwners(front) + [last.scope.phase.invocation]
  {
    assert (front + [last])[..|front|] == front;
    assert OutputOwners(front) + [] == OutputOwners(front);
    assert StateOwners(front) + [] == StateOwners(front);
  }

  lemma OutputsReflect(outputs: seq<Record>, front: seq<Step>, last: Step)
    requires GoodRecords(outputs) && Reflects(outputs, OutputOwners(front), OutputsOf(front))
    ensures Reflects(ApplyOutputs(outputs, last.scope, last.commands.output), OutputOwners(front + [last]), OutputsOf(front + [last]))
  {
    hide WriteAll, ValuesOf, RecordsOf, KeepLast, GoodRecords, Others, OutputsOf, OutputOwners;
    var h, id := front + [last], last.scope.stepId;
    var next := ApplyOutputs(outputs, last.scope, last.commands.output);
    OutputsAfter(outputs, last.scope, last.commands.output);
    forall x
      ensures ValuesOf(next, x) == OutputsOf(h)(x)
      ensures x != id || last.scope.phase.ActionPre? ==> OutputsOf(front)(x) == OutputsOf(h)(x)
    {
      OutputsOfStep(front, last, x);
    }
    OwnersStep(front, last);
    if last.scope.phase.ActionPre? {
      NoWriteReflects(outputs, OutputOwners(front), OutputsOf(front), OutputsOf(h));
    } else {
      WriteReflects(outputs, next, OutputOwners(front), id, OutputsOf(front), OutputsOf(h));
    }
  }

  lemma StatesReflect(states: seq<Record>, front: seq<Step>, last: Step)
    requires GoodRecords(states) && Reflects(states, StateOwners(front), StatesOf(front))
    ensures Reflects(ApplyStates(states, last.scope.phase, last.commands.state), StateOwners(front + [last]), StatesOf(front + [last]))
  {
    hide WriteAll, ValuesOf, RecordsOf, KeepLast, Others, WithoutFirst, StatesOf, StateOwners;
    var h, phase := front + [last], last.scope.phase;
    var next := ApplyStates(states, phase, last.commands.state);
    StatesAfter(states, phase, last.commands.state);
    forall x
      ensures ValuesOf(next, x) == StatesOf(h)(x)
      ensures !Invokes(last, x) ==> StatesOf(front)(x) == StatesOf(h)(x)
    {
      StatesOfStep(front, last, x);
    }
    OwnersStep(front, last);
    if phase == RunPhase {
      NoWriteReflects(states, StateOwners(front), StatesOf(front), StatesOf(h));
    } else {
      WithoutFirstIsOthers(states, phase.invocation);
      WriteReflects(states, next, StateOwners(front), phase.invocation, StatesOf(front), StatesOf(h));
    }
  }

  /** The declarations of a history that can have succeeded. */
  predicate Declarable(ds: seq<Subject>)
  {
    Compatible(ds) && |Firsts(ds)| <= MAX_SUBJECTS
  }

  lemma WritesStep(front: seq<Step>, last: Step, platform: Platform)
    ensures var h, c := front + [last], last.commands;
            && WriteAll([], EnvironmentWrites(h, platform), Folded(platform))
               == WriteAll(WriteAll([], EnvironmentWrites(front, platform), Folded(platform)), Unblocked(c.environment, platform), Folded(platform))
            && PrependAll([], PathWrites(h)) == PrependAll(PrependAll([], PathWrites(front)), c.path)
            && Declarations(h) == Declarations(front) + c.subjects
  {
    hide WriteAll, PrependAll, Unblocked;
    assert (front + [last])[..|front|] == front;
    WriteAllConcat([], EnvironmentWrites(front, platform), Unblocked(last.commands.environment, platform), Folded(platform));
    PrependAllConcat([], PathWrites(front), last.commands.path);
  }

  /** One more step: its state is derived exactly when the longer history is declarable. */
  lemma DeriveExactly(before: JobState, front: seq<Step>, last: Step)
    requires Declarable(Declarations(front)) && before.subjects == SortSubjects(Firsts(Declarations(front)))
    ensures var next := Derive(before, last.scope, last.commands);
            && (next.Ok? <==> Declarable(Declarations(front + [last])))
            && (next.Ok? ==> next.value.subjects == SortSubjects(Firsts(Declarations(front + [last]))))
  {
    hide WriteAll, PrependAll, ApplyOutputs, ApplyStates, AddSubjects, SortSubjects, Unblocked;
    hide EnvironmentWrites, PathWrites, Declarations, Firsts, Compatible;
    WritesStep(front, last, before.platform);
    DeclareMore(Declarations(front), last.commands.subjects);
  }

  /** And then it is the state of the longer history. */
  lemma DeriveReflects(before: JobState, front: seq<Step>, last: Step)
    requires GoodRecords(before.outputs) && GoodRecords(before.actionStates)
    requires ReflectsHistory(before, front) && Declarable(Declarations(front)) && Derive(before, last.scope, last.commands).Ok?
    ensures ReflectsHistory(Derive(before, last.scope, last.commands).value, front + [last])
  {
    hide WriteAll, PrependAll, ApplyOutputs, ApplyStates, AddSubjects, SortSubjects, Unblocked, GoodRecords, Declarable;
    hide EnvironmentWrites, PathWrites, Declarations, Reflects, OutputsOf, StatesOf, Firsts, OutputOwners, StateOwners;
    WritesStep(front, last, before.platform);
    DeriveExactly(before, front, last);
    OutputsReflect(before.outputs, front, last);
    StatesReflect(before.actionStates, front, last);
  }

  lemma EmptyReflects(platform: Platform)
    ensures ReflectsHistory(Empty(platform), []) && Declarable(Declarations([]))
    ensures StateOf(platform, []).platform == platform
  {
    NothingWritten();
    NothingConflicts();
  }

  /** Every prefix of a history within its limits. */
  predicate AlwaysValid(platform: Platform, h: seq<Step>, limits: Limits, listBytes: seq<Subject> -> nat)
  {
    forall n :: 0 < n <= |h| ==> Validate(StateOf(platform, h[..n]), limits, listBytes).None?
  }

  lemma AlwaysValidSnoc(platform: Platform, h: seq<Step>, limits: Limits, listBytes: seq<Subject> -> nat)
    requires h != []
    ensures AlwaysValid(platform, h, limits, listBytes) <==>
              && AlwaysValid(platform, h[..|h| - 1], limits, listBytes)
              && Validate(StateOf(platform, h), limits, listBytes).None?
  {
    hide Validate, StateOf;
    var front := h[..|h| - 1];
    assert h[..|h|] == h;
    assert forall n :: 0 < n <= |front| ==> front[..n] == h[..n];
  }

  lemma {:induction false} DeclarablePrefix(h: seq<Step>)
    requires h != [] && Declarable(Declarations(h))
    ensures Declarable(Declarations(h[..|h| - 1]))
  {
    hide Firsts;
    var ds, n := Declarations(h), |Declarations(h[..|h| - 1])|;
    assert ds[..n] == Declarations(h[..|h| - 1]);
    FirstsLonger(ds, n);
  }

  /** A history succeeds exactly when no two declarations of a name disagree, at most 500 names are declared, and the
      state of every prefix is within the limits; and then its state is the one read off the history. */
  lemma {:induction false} RunIsHistory(platform: Platform, h: seq<Step>, limits: Limits, listBytes: seq<Subject> -> nat)
    ensures RunJob(platform, h, limits, listBytes).Ok? <==>
              Declarable(Declarations(h)) && AlwaysValid(platform, h, limits, listBytes)
    ensures RunJob(platform, h, limits, listBytes).Ok? ==>
              && RunJob(platform, h, limits, listBytes).value == StateOf(platform, h)
              && ReflectsHistory(RunJob(platform, h, limits, listBytes).value, h)
    decreases |h|
  {
    hide Derive, Validate, StateOf, Declarations, Declarable, AlwaysValid, WellFormed, Notices, ReflectsHistory;
    if h == [] {
      EmptyReflects(platform);
      ReflectsIsStateOf(Empty(platform), []);
      NoPrefix(platform, limits, listBytes);
    } else {
      var front := h[..|h| - 1];
      RunIsHistory(platform, front, limits, listBytes);
      AlwaysValidSnoc(platform, h, limits, listBytes);
      if Declarable(Declarations(h)) { DeclarablePrefix(h); }
      if RunJob(platform, front, limits, listBytes).Ok? {
        ReachableIsWellFormed(platform, front, limits, listBytes);
        var before := RunJob(platform, front, limits, listBytes).value;
        RecordsAreGood(before);
        assert h == front + [h[|h| - 1]];
        StepReflects(before, front, h[|h| - 1]);
      }
    }
  }

  /** In terms of counts and bytes: a history succeeds exactly when its declarations agree and the state of every
      prefix fits. */
  lemma RunSucceedsExactly(platform: Platform, h: seq<Step>, limits: Limits, listBytes: seq<Subject> -> nat)
    requires limits.aggregateBytes <= HARD_MAX_STATE_BYTES
    ensures RunJob(platform, h, limits, listBytes).Ok? <==>
              Declarable(Declarations(h)) && forall n :: 0 < n <= |h| ==> Fits(StateOf(platform, h[..n]), limits, listBytes)
  {
    hide RunJob, Declarable, StateOf, Fits, Validate;
    RunIsHistory(platform, h, limits, listBytes);
    forall n | 0 < n <= |h|
      ensures Validate(StateOf(platform, h[..n]), limits, listBytes).None? <==> Fits(StateOf(platform, h[..n]), limits, listBytes)
    {
      ValidateExactly(StateOf(platform, h[..n]), limits, listBytes);
    }
  }

  /** The step at the end of a history, whether or not it succeeds. */
  lemma StepReflects(before: JobState, front: seq<Step>, last: Step)
    requires GoodRecords(before.outputs) && GoodRecords(before.actionStates)
    requires ReflectsHistory(before, front) && Declarable(Declarations(front))
    ensures var next := Derive(before, last.scope, last.commands);
            && (next.Ok? <==> Declarable(Declarations(front + [last])))
            && (next.Ok? ==> next.value == StateOf(before.platform, front + [last]) && ReflectsHistory(next.value, front + [last]))
  {
    hide Derive, StateOf, Declarations, Declarable, GoodRecords, ReflectsHistory, SortSubjects, Firsts;
    SubjectsReflect(before, front);
    DeriveExactly(before, front, last);
    if Derive(before, last.scope, last.commands).Ok? {
      DeriveReflects(before, front, last);
      DeriveKeepsPlatform(before, last);
      ReflectsIsStateOf(Derive(before, last.scope, last.commands).value, front + [last]);
    }
  }

  lemma DeriveKeepsPlatform(s: JobState, last: Step)
    requires Derive(s, last.scope, last.commands).Ok?
    ensures Derive(s, last.scope, last.commands).value.platform == s.platform
  {
  }

  lemma SubjectsReflect(s: JobState, h: seq<Step>)
    requires ReflectsHistory(s, h)
    ensures s.subjects == SortSubjects(Firsts(Declarations(h)))
  {
  }

  lemma NoPrefix(platform: Platform, limits: Limits, listBytes: seq<Subject> -> nat)
    ensures AlwaysValid(platform, [], limits, listBytes)
  {
  }

  lemma StateReflectsHistory(platform: Platform, h: seq<Step>, limits: Limits, listBytes: seq<Subject> -> nat)
    requires RunJob(platform, h, limits, listBytes).Ok?
    ensures ReflectsHistory(RunJob(platform, h, limits, listBytes).value, h)
    ensures RunJob(platform, h, limits, listBytes).value == StateOf(platform, h)
  {
    hide RunJob, ReflectsHistory, StateOf;
    RunIsHistory(platform, h, limits, listBytes);
  }

  lemma NothingWritten()
    ensures WriteAll([], [], true) == [] && WriteAll([], [], false) == [] && PrependAll([], []) == []
    ensures forall id :: ValuesOf([], id) == [] && OutputWrites([], id) == []
    ensures KeepLast([]) == []
  {
  }

  lemma RecordsAreGood(s: JobState)
    requires WellFormed(s)
    ensures GoodRecords(s.outputs) && GoodRecords(s.actionStates)
  {
  }

  /** All environment writes of a history, in order. */
  function AllWrites(h: seq<Step>): seq<NameValue>
  {
    if h == [] then [] else AllWrites(h[..|h| - 1]) + h[|h| - 1].commands.environment
  }

  /** After any history the environment holds exactly what all its writes leave: each name that is not reserved once,
      in the order and spelling of its first write, with the value of its last. */
  lemma {:induction false} EnvironmentHoldsHistory(platform: Platform, h: seq<Step>, limits: Limits, listBytes: seq<Subject> -> nat)
    requires RunJob(platform, h, limits, listBytes).Ok?
    ensures var s := RunJob(platform, h, limits, listBytes).value;
            s.platform == platform && ReflectsWrites(s.environment, AllWrites(h), platform)
    decreases |h|
  {
    hide ReflectsWrites, Notices, Validate;
    if h == [] {
      EmptyReflectsWrites(platform);
    } else {
      var front, last := h[..|h| - 1], h[|h| - 1];
      EnvironmentHoldsHistory(platform, front, limits, listBytes);
      var before := RunJob(platform, front, limits, listBytes).value;
      EnvironmentHolds(before.environment, AllWrites(front), last.commands.environment, platform);
    }
  }

  lemma EmptyReflectsWrites(platform: Platform)
    ensures ReflectsWrites([], [], platform)
  {
    NothingHeld(platform == Windows, Allowed(platform));
    assert HoldsAllowed([], [], platform, []);
  }

  /** No reachable environment has a reserved name: none is `NODE_OPTIONS` in any case, and no name of the two
      catalogues is there as spelled on Unix, or in any case on Windows. */
  lemma ReservedNeverAppear(platform: Platform, h: seq<Step>, limits: Limits, listBytes: seq<Subject> -> nat, j: nat)
    requires RunJob(platform, h, limits, listBytes).Ok? && j < |RunJob(platform, h, limits, listBytes).value.environment|
    ensures var name := RunJob(platform, h, limits, listBytes).value.environment[j].name;
            && !SameLetters(name, "NODE_OPTIONS")
            && (platform == Unix ==> name !in GITHUB_NAMES && name !in RUNNER_NAMES)
            && (platform == Windows ==>
                  && (forall i :: 0 <= i < |GITHUB_NAMES| ==> !SameLetters(name, GITHUB_NAMES[i]))
                  && (forall i :: 0 <= i < |RUNNER_NAMES| ==> !SameLetters(name, RUNNER_NAMES[i])))
  {
    hide RunJob, SameLetters, LastUnder, NoneUnder;
    EnvironmentHoldsHistory(platform, h, limits, listBytes);
    var env := RunJob(platform, h, limits, listBytes).value.environment;
    var firsts :| HoldsAllowed(env, AllWrites(h), platform, firsts);
    assert Stems(env[j], AllWrites(h), firsts[j], platform == Windows, Allowed(platform));
  }

  /** `name` is how the first write under its letters spells it. */
  ghost predicate FirstSpelling(ws: seq<NameValue>, name: string)
  {
    exists f :: 0 <= f < |ws| && ws[f].name == name && NoneUnder(ws, 0, f, name, true)
  }

  /** On Unix, a name has a value exactly when it is not reserved and its last write in the history, of exactly that
      text, wrote the value. */
  lemma UnixEnvironment(values: seq<NameValue>, ws: seq<NameValue>, name: string, value: string)
    requires ReflectsWrites(values, ws, Unix)
    ensures NameValue(name, value) in values <==> !Reserved(Unix, name) && LastUnder(ws, name, value, false)
  {
    hide Reserved;
    var firsts :| HoldsAllowed(values, ws, Unix, firsts);
    if NameValue(name, value) in values {
      var j :| 0 <= j < |values| && values[j] == NameValue(name, value);
      assert Stems(values[j], ws, firsts[j], false, Allowed(Unix));
    }
    if !Reserved(Unix, name) && LastUnder(ws, name, value, false) {
      var l :| 0 <= l < |ws| && ws[l].name == name && ws[l].value == value && NoneUnder(ws, l + 1, |ws|, name, false);
      assert Allowed(Unix)(ws[l].name);
      assert Under(values, name, false);
      var j :| 0 <= j < |values| && values[j].name == name;
      assert Stems(values[j], ws, firsts[j], false, Allowed(Unix));
      OneLast(ws, name, value, values[j].value, false);
    }
  }

  lemma OneLast(ws: seq<NameValue>, name: string, v: string, w: string, folded: bool)
    requires LastUnder(ws, name, v, folded) && LastUnder(ws, name, w, folded)
    ensures v == w
  {
    hide SameName;
    var k :| 0 <= k < |ws| && SameName(ws[k].name, name, folded) && ws[k].value == v && NoneUnder(ws, k + 1, |ws|, name, folded);
    var l :| 0 <= l < |ws| && SameName(ws[l].name, name, folded) && ws[l].value == w && NoneUnder(ws, l + 1, |ws|, name, folded);
  }

  /** On Windows, a name is there with a value exactly when it is not reserved, is the first spelling of its letters,
      and the last write under those letters wrote the value. */
  lemma WindowsEnvironment(values: seq<NameValue>, ws: seq<NameValue>, name: string, value: string)
    requires ReflectsWrites(values, ws, Windows)
    ensures NameValue(name, value) in values <==>
              !Reserved(Windows, name) && FirstSpelling(ws, name) && LastUnder(ws, name, value, true)
  {
    hide Reserved, SameName, LastUnder;
    KeysExactly(true);
    var firsts :| HoldsAllowed(values, ws, Windows, firsts);
    if NameValue(name, value) in values {
      var j :| 0 <= j < |values| && values[j] == NameValue(name, value);
      assert Stems(values[j], ws, firsts[j], true, Allowed(Windows));
    }
    if !Reserved(Windows, name) && FirstSpelling(ws, name) && LastUnder(ws, name, value, true) {
      var f :| 0 <= f < |ws| && ws[f].name == name && NoneUnder(ws, 0, f, name, true);
      assert Allowed(Windows)(ws[f].name);
      assert Under(values, name, true);
      var j :| 0 <= j < |values| && SameName(values[j].name, name, true);
      assert Stems(values[j], ws, firsts[j], true, Allowed(Windows));
      FirstIsFirst(ws, f, firsts[j], name);
      OneLast(ws, name, value, values[j].value, true);
    }
  }

  lemma FirstIsFirst(ws: seq<NameValue>, f: nat, g: nat, name: string)
    requires f < |ws| && g < |ws| && ws[f].name == name && SameName(ws[g].name, name, true)
    requires NoneUnder(ws, 0, f, name, true) && NoneUnder(ws, 0, g, ws[g].name, true)
    ensures f == g
  {
    hide SameName;
    KeysExactly(true);
  }

  /** After any history: the environment lists each name that is not reserved once, in order and spelling of its first
      write, with the value of its last; PATH is the last occurrences of all prepends. Names are compared as text on
      Unix and up to ASCII case on Windows. */
  lemma EnvironmentIsHistory(platform: Platform, h: seq<Step>, limits: Limits, listBytes: seq<Subject> -> nat, name: string, value: string)
    requires RunJob(platform, h, limits, listBytes).Ok?
    ensures var s, ws := RunJob(platform, h, limits, listBytes).value, EnvironmentWrites(h, platform);
            && s.environment == Canonical(ws, Folded(platform))
            && Lookup(s.environment, Key(name, Folded(platform)), Folded(platform)) == Expected(ws, Key(name, Folded(platform)), Folded(platform))
            && s.prependPath == KeepLast(PathWrites(h))
    ensures exists lasts :: HoldsLast(RunJob(platform, h, limits, listBytes).value.prependPath, PathWrites(h), lasts)
    ensures var s, ws := RunJob(platform, h, limits, listBytes).value, AllWrites(h);
            match platform
            case Unix => NameValue(name, value) in s.environment <==> !Reserved(Unix, name) && LastUnder(ws, name, value, false)
            case Windows => NameValue(name, value) in s.environment <==>
                              !Reserved(Windows, name) && FirstSpelling(ws, name) && LastUnder(ws, name, value, true)
  {
    hide RunJob, WriteAll, PrependAll, Canonical, KeepLast, Lookup, Expected, WellFormed;
    hide ReflectsWrites, LastUnder, FirstSpelling, Reserved, AllWrites, HoldsLast;
    ReachableIsWellFormed(platform, h, limits, listBytes);
    StateReflectsHistory(platform, h, limits, listBytes);
    WriteAllIsCanonical(EnvironmentWrites(h, platform), Folded(platform));
    LookupAfterWrites(EnvironmentWrites(h, platform), Key(name, Folded(platform)), Folded(platform));
    PrependAllIs([], PathWrites(h));
    var lasts := KeepLastExactly(PathWrites(h));
    assert Minus([], Elements(PathWrites(h))) + KeepLast(PathWrites(h)) == KeepLast(PathWrites(h));
    EnvironmentHoldsHistory(platform, h, limits, listBytes);
    if platform == Unix {
      UnixEnvironment(RunJob(platform, h, limits, listBytes).value.environment, AllWrites(h), name, value);
    } else {
      WindowsEnvironment(RunJob(platform, h, limits, listBytes).value.environment, AllWrites(h), name, value);
    }
  }

  predicate HasRecord(records: seq<Record>, id: string)
  {
    RecordAt(records, id) < |records|
  }

  /** After any history, a step's outputs are the writes since its last run or main phase and of its later post
      phases, an invocation's state all of its writes; without such writes there is no record at all. */
  lemma RecordsAreHistory(platform: Platform, h: seq<Step>, limits: Limits, listBytes: seq<Subject> -> nat, id: string)
    requires RunJob(platform, h, limits, listBytes).Ok?
    ensures var s := RunJob(platform, h, limits, listBytes).value;
            && ValuesOf(s.outputs, id) == Canonical(OutputWrites(h, id), true)
            && ValuesOf(s.actionStates, id) == Canonical(StateWrites(h, id), true)
            && (HasRecord(s.outputs, id) <==> OutputWrites(h, id) != [])
            && (HasRecord(s.actionStates, id) <==> StateWrites(h, id) != [])
  {
    hide RunJob, WriteAll, Canonical, WellFormed, HasRecord, ValuesOf, OutputWrites, StateWrites;
    var s := RunJob(platform, h, limits, listBytes).value;
    ReachableIsWellFormed(platform, h, limits, listBytes);
    RecordsAreGood(s);
    StateReflectsHistory(platform, h, limits, listBytes);
    WriteAllIsCanonical(OutputWrites(h, id), true);
    WriteAllIsCanonical(StateWrites(h, id), true);
    RecordIffValues(s.outputs, id);
    RecordIffValues(s.actionStates, id);
    WrittenIsNonempty(OutputWrites(h, id));
    WrittenIsNonempty(StateWrites(h, id));
  }

  lemma RecordIffValues(records: seq<Record>, id: string)
    requires GoodRecords(records)
    ensures HasRecord(records, id) <==> ValuesOf(records, id) != []
  {
  }

  lemma WrittenIsNonempty(ws: seq<NameValue>)
    ensures WriteAll([], ws, true) == [] <==> ws == []
  {
  }

  // ----- Subjects over a history -----

  lemma StepKeepsSubjects(s: JobState, scope: Scope, c: Commands, limits: Limits, listBytes: seq<Subject> -> nat)
    requires WellFormed(s) && Apply(s, scope, c, limits, listBytes).Ok?
    ensures forall x :: x in s.subjects ==> x in Apply(s, scope, c, limits, listBytes).value.state.subjects
    ensures forall x :: x in Apply(s, scope, c, limits, listBytes).value.state.subjects ==> x in s.subjects || x in c.subjects
  {
    hide WriteAll, PrependAll, ApplyOutputs, ApplyStates, AddSubjects, SortSubjects, Unblocked, Notices, Validate;
    hide Distinct, NoneBlocked, GoodRecords, NoRepeats, StrictlySorted;
    SubjectsAfter(s.subjects, c.subjects);
  }

  lemma {:induction false} RunPrefix(platform: Platform, h: seq<Step>, n: nat, limits: Limits, listBytes: seq<Subject> -> nat)
    requires n <= |h| && RunJob(platform, h, limits, listBytes).Ok?
    ensures RunJob(platform, h[..n], limits, listBytes).Ok?
    decreases |h|
  {
    hide Apply;
    if n == |h| {
      assert h[..n] == h;
    } else {
      assert h[..|h| - 1][..n] == h[..n];
      RunPrefix(platform, h[..|h| - 1], n, limits, listBytes);
    }
  }

  /** No subject ever disappears or changes: whatever a state of the run holds, every later state holds. */
  lemma {:induction false} SubjectsAreKept(
      platform: Platform, h: seq<Step>, n: nat, limits: Limits, listBytes: seq<Subject> -> nat, x: Subject)
    requires n <= |h| && RunJob(platform, h, limits, listBytes).Ok?
    ensures RunJob(platform, h[..n], limits, listBytes).Ok?
    ensures x in RunJob(platform, h[..n], limits, listBytes).value.subjects ==> x in RunJob(platform, h, limits, listBytes).value.subjects
    decreases |h|
  {
    hide Apply, WellFormed;
    RunPrefix(platform, h, n, limits, listBytes);
    if n == |h| {
      assert h[..n] == h;
    } else {
      var front, last := h[..|h| - 1], h[|h| - 1];
      assert front[..n] == h[..n];
      SubjectsAreKept(platform, front, n, limits, listBytes, x);
      ReachableIsWellFormed(platform, front, limits, listBytes);
      StepKeepsSubjects(RunJob(platform, front, limits, listBytes).value, last.scope, last.commands, limits, listBytes);
    }
  }

  /** Every subject of a reachable state was declared by some step. */
  lemma {:induction false} SubjectsWereDeclared(platform: Platform, h: seq<Step>, limits: Limits, listBytes: seq<Subject> -> nat, x: Subject)
    requires RunJob(platform, h, limits, listBytes).Ok? && x in RunJob(platform, h, limits, listBytes).value.subjects
    ensures exists i :: 0 <= i < |h| && x in h[i].commands.subjects
    decreases |h|
  {
    hide Apply, WellFormed;
    if h != [] {
      var front, last := h[..|h| - 1], h[|h| - 1];
      ReachableIsWellFormed(platform, front, limits, listBytes);
      var before := RunJob(platform, front, limits, listBytes).value;
      StepKeepsSubjects(before, last.scope, last.commands, limits, listBytes);
      if x in before.subjects {
        SubjectsWereDeclared(platform, front, limits, listBytes, x);
        var i :| 0 <= i < |front| && x in front[i].commands.subjects;
        assert h[i] == front[i];
      } else {
        assert x in h[|h| - 1].commands.subjects;
      }
    }
  }

  /** Two states of one run never give one name two digests. */
  lemma DigestsNeverChange(
      platform: Platform, h: seq<Step>, n: nat, limits: Limits, listBytes: seq<Subject> -> nat, x: Subject, y: Subject)
    requires n <= |h| && RunJob(platform, h, limits, listBytes).Ok?
    requires RunJob(platform, h[..n], limits, listBytes).Ok? && x in RunJob(platform, h[..n], limits, listBytes).value.subjects
    requires y in RunJob(platform, h, limits, listBytes).value.subjects && x.name == y.name
    ensures x == y
  {
    hide RunJob, GoodRecords, Distinct, NoneBlocked, NoRepeats, NameLeq;
    SubjectsAreKept(platform, h, n, limits, listBytes, x);
    ReachableIsWellFormed(platform, h, limits, listBytes);
    var subjects := RunJob(platform, h, limits, listBytes).value.subjects;
    StrictIsDistinct(subjects);
    var i :| 0 <= i < |subjects| && subjects[i] == x;
    var j :| 0 <= j < |subjects| && subjects[j] == y;
    assert i == j;
  }

  /** The subjects of a reachable state are exactly the first declarations of their names, over the whole history. */
  lemma SubjectsAreFirstDeclarations(platform: Platform, h: seq<Step>, limits: Limits, listBytes: seq<Subject> -> nat, x: Subject)
    requires RunJob(platform, h, limits, listBytes).Ok?
    ensures x in RunJob(platform, h, limits, listBytes).value.subjects <==> FirstDeclared(Declarations(h), x)
  {
    hide RunJob, ReflectsHistory, Firsts, SortSubjects, FirstDeclared, Declarations, StrictlySorted;
    StateReflectsHistory(platform, h, limits, listBytes);
    var fs := Firsts(Declarations(h));
    FirstsAreDistinct(Declarations(h));
    SortIsStrict(fs);
    FirstsExactly(Declarations(h), x);
    assert x in fs <==> x in multiset(fs);
    assert x in SortSubjects(fs) <==> x in multiset(SortSubjects(fs));
  }

  /** Every declaration of a successful history is answered for at its end: its name is there with its digest. */
  lemma DeclarationsArePresent(platform: Platform, h: seq<Step>, limits: Limits, listBytes: seq<Subject> -> nat, i: nat)
    requires RunJob(platform, h, limits, listBytes).Ok? && i < |Declarations(h)|
    ensures Declares(RunJob(platform, h, limits, listBytes).value.subjects, Declarations(h)[i])
  {
    hide RunJob, Firsts, SubjectAt, Declarations, AlwaysValid;
    var ds, d := Declarations(h), Declarations(h)[i];
    RunIsHistory(platform, h, limits, listBytes);
    var k := SubjectAt(ds, d.name);
    assert k <= i && ds[k].name == d.name;
    if k < i { SameDigest(ds, k, i); }
    assert FirstDeclared(ds, ds[k]);
    SubjectsAreFirstDeclarations(platform, h, limits, listBytes, ds[k]);
    var subjects := RunJob(platform, h, limits, listBytes).value.subjects;
    var j :| 0 <= j < |subjects| && subjects[j] == ds[k];
  }
}

/** Committing a completed step's commands to the job (`apply_completed_step` in
    crates/automata-ci-actions-runtime/src/phase.rs, with the reserved names of environment.rs). */
module CompletedSteps {

  import opened Text
  import Utf8
  import opened NameValues
  import opened WriteHistory

  datatype SubjectKind = FileSubject | OciSubject

  datatype Subject = Subject(name: string, digest: string, kind: SubjectKind)

  /** The values recorded under one step or one action invocation. */
  datatype Record = Record(id: string, values: seq<NameValue>)

  datatype JobState = JobState(
    platform: Platform, environment: seq<NameValue>, prependPath: seq<string>,
    outputs: seq<Record>, actionStates: seq<Record>, subjects: seq<Subject>)

  datatype Phase = RunPhase | ActionPre(invocation: string) | ActionMain(invocation: string) | ActionPost(invocation: string)

  datatype Scope = Scope(stepId: string, phase: Phase)

  datatype Commands = Commands(
    environment: seq<NameValue>, path: seq<string>, output: seq<NameValue>, state: seq<NameValue>, subjects: seq<Subject>)

  datatype Limits = Limits(
    environmentEntries: nat, pathEntries: nat, steps: nat, actionStates: nat, aggregateBytes: nat)

  datatype ApplyError =
    | ArtifactConflict | TooManyArtifactSubjects | TooManyEnvironmentEntries | TooManyPathEntries
    | TooManySteps | TooManyActionStates | ArtifactListTooLarge | AggregateTooLarge

  datatype Notice = BlockedNodeOptions | BlockedGithub | BlockedRunner | StateIgnoredForRunStep

  datatype Application = Application(state: JobState, notices: seq<Notice>)

  const MAX_SUBJECTS: nat := 500
  const MAX_LIST_BYTES: nat := 16_777_216
  const HARD_MAX_STATE_BYTES: nat := 536_870_912
  const USIZE_LIMIT: nat := 0x1_0000_0000_0000_0000

  // ----- Reserved environment names -----

  const GITHUB_NAMES := [
    "GITHUB_ACTION", "GITHUB_ACTION_PATH", "GITHUB_ACTION_REF", "GITHUB_ACTION_REPOSITORY",
    "GITHUB_ACTIONS", "GITHUB_ACTOR", "GITHUB_ACTOR_ID", "GITHUB_API_URL", "GITHUB_ARTIFACTS",
    "GITHUB_ARTIFACTS_LIST", "GITHUB_BASE_REF", "GITHUB_ENV", "GITHUB_EVENT_NAME", "GITHUB_EVENT_PATH",
    "GITHUB_GRAPHQL_URL", "GITHUB_HEAD_REF", "GITHUB_JOB", "GITHUB_OUTPUT", "GITHUB_PATH", "GITHUB_REF",
    "GITHUB_REF_NAME", "GITHUB_REF_PROTECTED", "GITHUB_REF_TYPE", "GITHUB_REPOSITORY",
    "GITHUB_REPOSITORY_ID", "GITHUB_REPOSITORY_OWNER", "GITHUB_REPOSITORY_OWNER_ID",
    "GITHUB_RETENTION_DAYS", "GITHUB_RUN_ATTEMPT", "GITHUB_RUN_ID", "GITHUB_RUN_NUMBER",
    "GITHUB_SERVER_URL", "GITHUB_SHA", "GITHUB_STATE", "GITHUB_STEP_SUMMARY", "GITHUB_TRIGGERING_ACTOR",
    "GITHUB_WORKFLOW", "GITHUB_WORKFLOW_REF", "GITHUB_WORKFLOW_SHA", "GITHUB_WORKSPACE"]

  const RUNNER_NAMES := [
    "RUNNER_ARCH", "RUNNER_DEBUG", "RUNNER_ENVIRONMENT", "RUNNER_NAME", "RUNNER_OS", "RUNNER_TEMP",
    "RUNNER_TOOL_CACHE"]

  predicate Folded(platform: Platform)
  {
    platform == Windows
  }

  predicate InCatalog(platform: Platform, name: string, catalog: seq<string>)
  {
    exists i :: 0 <= i < |catalog| && Key(name, Folded(platform)) == Key(catalog[i], Folded(platform))
  }

  /** `classify_environment_mutation`. */
  function Classify(platform: Platform, name: string): Option<Notice>
  {
    if EqIgnoreCase(name, "NODE_OPTIONS") then Some(BlockedNodeOptions)
    else if InCatalog(platform, name, GITHUB_NAMES) then Some(BlockedGithub)
    else if InCatalog(platform, name, RUNNER_NAMES) then Some(BlockedRunner)
    else None
  }

  predicate Blocked(platform: Platform, name: string)
  {
    Classify(platform, name).Some?
  }

  function Unblocked(ws: seq<NameValue>, platform: Platform): seq<NameValue>
  {
    if ws == [] then []
    else Unblocked(ws[..|ws| - 1], platform) + if Blocked(platform, ws[|ws| - 1].name) then [] else [ws[|ws| - 1]]
  }

  function BlockNotices(ws: seq<NameValue>, platform: Platform): seq<Notice>
  {
    if ws == [] then [] else
      var c := Classify(platform, ws[|ws| - 1].name);
      BlockNotices(ws[..|ws| - 1], platform) + if c.Some? then [c.value] else []
  }

  // ----- Which names are reserved, and which writes leave which notice -----

  /** Catalogue names are reserved as they are spelled on Unix, and whatever their ASCII case on Windows. */
  predicate Listed(platform: Platform, name: string, catalog: seq<string>)
  {
    match platform
    case Unix => name in catalog
    case Windows => exists i :: 0 <= i < |catalog| && SameLetters(name, catalog[i])
  }

  predicate Reserved(platform: Platform, name: string)
  {
    SameLetters(name, "NODE_OPTIONS") || Listed(platform, name, GITHUB_NAMES) || Listed(platform, name, RUNNER_NAMES)
  }

  function Allowed(platform: Platform): string -> bool
  {
    name => !Reserved(platform, name)
  }

  /** The notice that a reserved name leaves. */
  predicate Explains(platform: Platform, name: string, notice: Notice)
  {
    match notice
    case BlockedNodeOptions => SameLetters(name, "NODE_OPTIONS")
    case BlockedGithub => !SameLetters(name, "NODE_OPTIONS") && Listed(platform, name, GITHUB_NAMES)
    case BlockedRunner =>
      && !SameLetters(name, "NODE_OPTIONS") && !Listed(platform, name, GITHUB_NAMES) && Listed(platform, name, RUNNER_NAMES)
    case StateIgnoredForRunStep => false
  }

  lemma ListedExactly(platform: Platform, name: string, catalog: seq<string>)
    ensures InCatalog(platform, name, catalog) <==> Listed(platform, name, catalog)
  {
    hide Lower, SameLetters;
    if platform == Windows {
      forall i | 0 <= i < |catalog|
        ensures Lower(name) == Lower(catalog[i]) <==> SameLetters(name, catalog[i])
      {
        EqIgnoreCaseExactly(name, catalog[i]);
      }
    } else {
      assert forall i :: 0 <= i < |catalog| && name == catalog[i] ==> name in catalog;
    }
  }

  /** Exactly the reserved names are blocked, each for its own reason. */
  lemma ClassifyExactly(platform: Platform, name: string)
    ensures Blocked(platform, name) <==> Reserved(platform, name)
    ensures forall notice :: Classify(platform, name) == Some(notice) <==> Explains(platform, name, notice)
  {
    hide InCatalog, Listed, EqIgnoreCase, SameLetters;
    ListedExactly(platform, name, GITHUB_NAMES);
    ListedExactly(platform, name, RUNNER_NAMES);
    EqIgnoreCaseExactly(name, "NODE_OPTIONS");
  }

  /** Two spellings of one name are reserved together. */
  lemma ReservedTogether(platform: Platform)
    ensures Respects(Allowed(platform), platform == Windows)
  {
    hide InCatalog, Listed, SameLetters;
    forall a, b | SameName(a, b, platform == Windows)
      ensures Allowed(platform)(a) <==> Allowed(platform)(b)
    {
      ClassifyExactly(platform, a);
      ClassifyExactly(platform, b);
      if platform == Windows {
        EqIgnoreCaseExactly(a, b);
        CatalogFolds(a, b, GITHUB_NAMES);
        CatalogFolds(a, b, RUNNER_NAMES);
      }
    }
  }

  lemma CatalogFolds(a: string, b: string, catalog: seq<string>)
    requires EqIgnoreCase(a, b)
    ensures InCatalog(Windows, a, catalog) <==> InCatalog(Windows, b, catalog)
    ensures EqIgnoreCase(a, "NODE_OPTIONS") <==> EqIgnoreCase(b, "NODE_OPTIONS")
  {
  }

  /** Notice `k` is about write `at[k]`, in order, and every reserved write has its notice. */
  ghost predicate NoticesReserved(notices: seq<Notice>, ws: seq<NameValue>, platform: Platform, at: seq<nat>)
  {
    && |at| == |notices|
    && (forall j, k :: 0 <= j < k < |at| ==> at[j] < at[k])
    && (forall k :: 0 <= k < |at| ==> at[k] < |ws| && Explains(platform, ws[at[k]].name, notices[k]))
    && (forall i :: 0 <= i < |ws| && Reserved(platform, ws[i].name) ==> i in at)
  }

  lemma NoticeOneMore(notices: seq<Notice>, ws: seq<NameValue>, w: NameValue, platform: Platform, at: seq<nat>)
      returns (more: seq<nat>)
    requires NoticesReserved(notices, ws, platform, at)
    ensures var reason := Classify(platform, w.name);
            NoticesReserved(notices + if reason.Some? then [reason.value] else [], ws + [w], platform, more)
  {
    hide Classify, Reserved, Explains;
    ClassifyExactly(platform, w.name);
    var all := ws + [w];
    assert all[|ws|] == w && forall i :: 0 <= i < |ws| ==> all[i] == ws[i];
    more := at;
    if Classify(platform, w.name).Some? {
      more := at + [|ws|];
      assert more[|at|] == |ws| && forall k :: 0 <= k < |at| ==> more[k] == at[k];
    }
  }

  lemma {:induction false} BlockNoticesExactly(ws: seq<NameValue>, platform: Platform) returns (at: seq<nat>)
    ensures NoticesReserved(BlockNotices(ws, platform), ws, platform, at)
    decreases |ws|
  {
    hide NoticesReserved, Classify;
    if ws == [] {
      at := [];
      assert NoticesReserved([], [], platform, []) by { NothingNoticed(platform); }
    } else {
      var n := |ws| - 1;
      var before := BlockNoticesExactly(ws[..n], platform);
      at := NoticeOneMore(BlockNotices(ws[..n], platform), ws[..n], ws[n], platform, before);
      assert ws == ws[..n] + [ws[n]];
    }
  }

  lemma NothingNoticed(platform: Platform)
    ensures NoticesReserved([], [], platform, [])
  {
  }

  ghost predicate HoldsAllowed(values: seq<NameValue>, ws: seq<NameValue>, platform: Platform, firsts: seq<nat>)
  {
    HoldsWrites(values, ws, platform == Windows, Allowed(platform), firsts)
  }

  /** An environment that holds exactly what these writes leave, without the reserved names. */
  ghost predicate ReflectsWrites(values: seq<NameValue>, ws: seq<NameValue>, platform: Platform)
  {
    exists firsts :: HoldsAllowed(values, ws, platform, firsts)
  }

  lemma ReflectsOneMore(values: seq<NameValue>, ws: seq<NameValue>, w: NameValue, platform: Platform)
    requires ReflectsWrites(values, ws, platform)
    ensures ReflectsWrites(if Blocked(platform, w.name) then values else Write(values, w, Folded(platform)), ws + [w], platform)
  {
    hide HoldsWrites, Classify, Write, Respects, Reserved;
    var firsts :| HoldsAllowed(values, ws, platform, firsts);
    ReservedTogether(platform);
    ClassifyExactly(platform, w.name);
    var more := OneMoreWrite(values, ws, w, platform == Windows, Allowed(platform), firsts);
    assert HoldsAllowed(if Blocked(platform, w.name) then values else Write(values, w, Folded(platform)), ws + [w], platform, more);
  }

  /** Committing writes to an environment that reflects earlier ones: it then reflects both. */
  lemma {:induction false} EnvironmentHolds(values: seq<NameValue>, past: seq<NameValue>, ws: seq<NameValue>, platform: Platform)
    requires ReflectsWrites(values, past, platform)
    ensures ReflectsWrites(WriteAll(values, Unblocked(ws, platform), Folded(platform)), past + ws, platform)
    decreases |ws|
  {
    hide ReflectsWrites, Classify, Write;
    if ws == [] {
      assert past + ws == past;
    } else {
      var n := |ws| - 1;
      EnvironmentHolds(values, past, ws[..n], platform);
      var kept := Unblocked(ws[..n], platform);
      ReflectsOneMore(WriteAll(values, kept, Folded(platform)), past + ws[..n], ws[n], platform);
      assert past + ws == (past + ws[..n]) + [ws[n]];
      WriteAllSnoc(values, kept, ws[n], Folded(platform));
      assert kept + [] == kept;
    }
  }

  // ----- Records by step and by invocation -----

  function RecordAt(records: seq<Record>, id: string): (k: nat)
    ensures k <= |records|
    ensures k < |records| ==> records[k].id == id
    ensures forall i :: 0 <= i < k ==> records[i].id != id
  {
    if records == [] || records[0].id == id then 0 else 1 + RecordAt(records[1..], id)
  }

  function ValuesOf(records: seq<Record>, id: string): seq<NameValue>
  {
    var k := RecordAt(records, id);
    if k < |records| then records[k].values else []
  }

  /** `retain` of the records of other owners. */
  function Others(records: seq<Record>, id: string): seq<Record>
  {
    if records == [] then []
    else (if records[0].id == id then [] else [records[0]]) + Others(records[1..], id)
  }

  /** Removal of the first record of an owner. */
  function WithoutFirst(records: seq<Record>, id: string): seq<Record>
  {
    var k := RecordAt(records, id);
    if k < |records| then records[..k] + records[k + 1..] else records
  }

  function Recorded(id: string, values: seq<NameValue>): seq<Record>
  {
    if values == [] then [] else [Record(id, values)]
  }

  function ApplyOutputs(outputs: seq<Record>, scope: Scope, ws: seq<NameValue>): seq<Record>
  {
    if scope.phase.ActionPre? then outputs else
      var base := if scope.phase.ActionPost? then ValuesOf(outputs, scope.stepId) else [];
      Others(outputs, scope.stepId) + Recorded(scope.stepId, WriteAll(base, ws, true))
  }

  function ApplyStates(states: seq<Record>, phase: Phase, ws: seq<NameValue>): seq<Record>
  {
    if phase == RunPhase then states else
      WithoutFirst(states, phase.invocation)
      + Recorded(phase.invocation, WriteAll(ValuesOf(states, phase.invocation), ws, true))
  }

  // ----- Artifact subjects -----

  function SubjectAt(subjects: seq<Subject>, name: string): (k: nat)
    ensures k <= |subjects|
    ensures k < |subjects| ==> subjects[k].name == name
    ensures forall i :: 0 <= i < k ==> subjects[i].name != name
  {
    if subjects == [] || subjects[0].name == name then 0 else 1 + SubjectAt(subjects[1..], name)
  }

  function AddSubject(subjects: seq<Subject>, s: Subject): Result<seq<Subject>, ApplyError>
  {
    var k := SubjectAt(subjects, s.name);
    if k < |subjects| then (if subjects[k].digest != s.digest then Err(ArtifactConflict) else Ok(subjects))
    else if |subjects| >= MAX_SUBJECTS then Err(TooManyArtifactSubjects)
    else Ok(subjects + [s])
  }

  function AddSubjects(subjects: seq<Subject>, more: seq<Subject>): Result<seq<Subject>, ApplyError>
  {
    if more == [] then Ok(subjects) else
      match AddSubjects(subjects, more[..|more| - 1])
      case Err(e) => Err(e)
      case Ok(list) => AddSubject(list, more[|more| - 1])
  }

  predicate NameLeq(a: Subject, b: Subject)
  {
    LexLeq(Utf8.Scalars(a.name), Utf8.Scalars(b.name))
  }

  function InsertSubject(sorted: seq<Subject>, s: Subject): (r: seq<Subject>)
    ensures |r| == |sorted| + 1
  {
    if sorted == [] || NameLeq(sorted[|sorted| - 1], s) then sorted + [s]
    else InsertSubject(sorted[..|sorted| - 1], s) + [sorted[|sorted| - 1]]
  }

  /** The stable sort by name. */
  function SortSubjects(subjects: seq<Subject>): (r: seq<Subject>)
    ensures |r| == |subjects|
  {
    if subjects == [] then [] else InsertSubject(SortSubjects(subjects[..|subjects| - 1]), subjects[|subjects| - 1])
  }

  // ----- Sizes -----

  function ValueWeights(values: seq<NameValue>): seq<nat>
  {
    if values == [] then [] else [Utf8.TextBytes(values[0].name), Utf8.TextBytes(values[0].value)] + ValueWeights(values[1..])
  }

  function PathWeights(paths: seq<string>): seq<nat>
  {
    if paths == [] then [] else [Utf8.TextBytes(paths[0])] + PathWeights(paths[1..])
  }

  function RecordWeights(records: seq<Record>): seq<nat>
  {
    if records == [] then []
    else [Utf8.TextBytes(records[0].id)] + ValueWeights(records[0].values) + RecordWeights(records[1..])
  }

  function SubjectWeights(subjects: seq<Subject>): seq<nat>
  {
    if subjects == [] then []
    else [Utf8.TextBytes(subjects[0].name), Utf8.TextBytes(subjects[0].digest)] + SubjectWeights(subjects[1..])
  }

  /** Every size the byte total adds, in the order the loops add them. */
  function Weights(s: JobState): seq<nat>
  {
    ValueWeights(s.environment) + PathWeights(s.prependPath) + RecordWeights(s.outputs)
    + RecordWeights(s.actionStates) + SubjectWeights(s.subjects)
  }

  function Sum(ws: seq<nat>): nat
  {
    if ws == [] then 0 else Sum(ws[..|ws| - 1]) + ws[|ws| - 1]
  }

  function TotalBytes(s: JobState): nat
  {
    Sum(Weights(s))
  }

  lemma {:induction false} SumPrefix(ws: seq<nat>, n: nat)
    requires n <= |ws|
    ensures Sum(ws[..n]) <= Sum(ws)
    decreases |ws| - n
  {
    if n == |ws| {
      assert ws[..n] == ws;
    } else {
      assert ws[..n + 1][..n] == ws[..n];
      SumPrefix(ws, n + 1);
    }
  }

  /** `state_aggregate_bytes`: checked addition finds the true total, or that it exceeds a word. */
  method StateAggregateBytes(s: JobState) returns (r: Option<nat>)
    ensures r == if TotalBytes(s) < USIZE_LIMIT then Some(TotalBytes(s)) else None
    ensures r == if StateBytes(s) < USIZE_LIMIT then Some(StateBytes(s)) else None
  {
    hide Weights, StateBytes;
    TotalIsStateBytes(s);
    var weights, total := Weights(s), 0;
    for i := 0 to |weights|
      invariant total == Sum(weights[..i]) && total < USIZE_LIMIT
    {
      assert weights[..i + 1][..i] == weights[..i];
      SumPrefix(weights, i + 1);
      if total + weights[i] >= USIZE_LIMIT {
        return None;
      }
      total := total + weights[i];
    }
    assert weights[..|weights|] == weights;
    r := Some(total);
  }

  /** `unwrap_or(usize::MAX)` of the checked total. */
  function Aggregate(s: JobState): nat
  {
    if TotalBytes(s) < USIZE_LIMIT then TotalBytes(s) else USIZE_LIMIT - 1
  }

  function Validate(s: JobState, limits: Limits, listBytes: seq<Subject> -> nat): Option<ApplyError>
  {
    if |s.environment| > limits.environmentEntries then Some(TooManyEnvironmentEntries)
    else if |s.prependPath| > limits.pathEntries then Some(TooManyPathEntries)
    else if |s.outputs| > limits.steps then Some(TooManySteps)
    else if |s.actionStates| > limits.actionStates then Some(TooManyActionStates)
    else if listBytes(s.subjects) > MAX_LIST_BYTES then Some(ArtifactListTooLarge)
    else if Aggregate(s) > limits.aggregateBytes then Some(AggregateTooLarge)
    else None
  }

  /** No limit is exceeded, with every byte truly counted. */
  predicate Fits(s: JobState, limits: Limits, listBytes: seq<Subject> -> nat)
  {
    && |s.environment| <= limits.environmentEntries && |s.prependPath| <= limits.pathEntries
    && |s.outputs| <= limits.steps && |s.actionStates| <= limits.actionStates
    && listBytes(s.subjects) <= MAX_LIST_BYTES && StateBytes(s) <= limits.aggregateBytes
  }

  /** The bytes of a state, part by part. */
  function StateBytes(s: JobState): nat
  {
    ValueBytes(s.environment) + PathBytes(s.prependPath) + RecordBytes(s.outputs) + RecordBytes(s.actionStates)
    + SubjectBytes(s.subjects)
  }

  function ValueBytes(values: seq<NameValue>): nat
  {
    if values == [] then 0 else |Utf8.Bytes(values[0].name)| + |Utf8.Bytes(values[0].value)| + ValueBytes(values[1..])
  }

  function PathBytes(paths: seq<string>): nat
  {
    if paths == [] then 0 else |Utf8.Bytes(paths[0])| + PathBytes(paths[1..])
  }

  function RecordBytes(records: seq<Record>): nat
  {
    if records == [] then 0 else |Utf8.Bytes(records[0].id)| + ValueBytes(records[0].values) + RecordBytes(records[1..])
  }

  function SubjectBytes(subjects: seq<Subject>): nat
  {
    if subjects == [] then 0
    else |Utf8.Bytes(subjects[0].name)| + |Utf8.Bytes(subjects[0].digest)| + SubjectBytes(subjects[1..])
  }

  lemma {:induction false} SumConcat(a: seq<nat>, b: seq<nat>)
    ensures Sum(a + b) == Sum(a) + Sum(b)
    decreases |b|
  {
    if b == [] {
      assert a + b == a;
    } else {
      assert (a + b)[..|a + b| - 1] == a + b[..|b| - 1];
      SumConcat(a, b[..|b| - 1]);
    }
  }

  lemma SumOf(x: nat, y: nat)
    ensures Sum([x]) == x && Sum([x, y]) == x + y
  {
    assert [x][..0] == [] && [x, y][..1] == [x];
  }

  lemma {:induction false} ValueSums(values: seq<NameValue>)
    ensures Sum(ValueWeights(values)) == ValueBytes(values)
  {
    if values != [] {
      ValueSums(values[1..]);
      var x, y := Utf8.TextBytes(values[0].name), Utf8.TextBytes(values[0].value);
      SumOf(x, y);
      SumConcat([x, y], ValueWeights(values[1..]));
    }
  }

  lemma {:induction false} PathSums(paths: seq<string>)
    ensures Sum(PathWeights(paths)) == PathBytes(paths)
  {
    if paths != [] {
      PathSums(paths[1..]);
      SumOf(Utf8.TextBytes(paths[0]), 0);
      SumConcat([Utf8.TextBytes(paths[0])], PathWeights(paths[1..]));
    }
  }

  lemma {:induction false} RecordSums(records: seq<Record>)
    ensures Sum(RecordWeights(records)) == RecordBytes(records)
  {
    if records != [] {
      RecordSums(records[1..]);
      ValueSums(records[0].values);
      var id := Utf8.TextBytes(records[0].id);
      SumOf(id, 0);
      SumConcat([id], ValueWeights(records[0].values));
      SumConcat([id] + ValueWeights(records[0].values), RecordWeights(records[1..]));
    }
  }

  lemma {:induction false} SubjectSums(subjects: seq<Subject>)
    ensures Sum(SubjectWeights(subjects)) == SubjectBytes(subjects)
  {
    if subjects != [] {
      SubjectSums(subjects[1..]);
      var x, y := Utf8.TextBytes(subjects[0].name), Utf8.TextBytes(subjects[0].digest);
      SumOf(x, y);
      SumConcat([x, y], SubjectWeights(subjects[1..]));
    }
  }

  /** The one running total of the loops is the sum of the parts. */
  lemma TotalIsStateBytes(s: JobState)
    ensures TotalBytes(s) == StateBytes(s)
  {
    hide Sum;
    var a, b, c := ValueWeights(s.environment), PathWeights(s.prependPath), RecordWeights(s.outputs);
    var d, e := RecordWeights(s.actionStates), SubjectWeights(s.subjects);
    SumConcat(a, b);
    SumConcat(a + b, c);
    SumConcat(a + b + c, d);
    SumConcat(a + b + c + d, e);
    ValueSums(s.environment);
    PathSums(s.prependPath);
    RecordSums(s.outputs);
    RecordSums(s.actionStates);
    SubjectSums(s.subjects);
  }

  /** A state is refused exactly when it exceeds a limit, and the error names a limit it exceeds:
      the byte total only when every other limit is kept. */
  lemma ValidateExactly(s: JobState, limits: Limits, listBytes: seq<Subject> -> nat)
    requires limits.aggregateBytes <= HARD_MAX_STATE_BYTES
    ensures var r := Validate(s, limits, listBytes);
            && (r.None? <==> Fits(s, limits, listBytes))
            && (|s.environment| > limits.environmentEntries ==> r == Some(TooManyEnvironmentEntries))
            && (r == Some(TooManyPathEntries) ==> |s.prependPath| > limits.pathEntries)
            && (r == Some(TooManySteps) ==> |s.outputs| > limits.steps)
            && (r == Some(TooManyActionStates) ==> |s.actionStates| > limits.actionStates)
            && (r == Some(ArtifactListTooLarge) ==> listBytes(s.subjects) > MAX_LIST_BYTES)
            && (r == Some(AggregateTooLarge) <==> !Fits(s, limits, listBytes) && Fits(s, limits.(aggregateBytes := StateBytes(s)), listBytes))
            && r != Some(ArtifactConflict) && r != Some(TooManyArtifactSubjects)
  {
    hide TotalBytes, StateBytes;
    TotalIsStateBytes(s);
  }

  // ----- One completed step -----

  /** The next state and notices, before limits are checked. */
  function Derive(s: JobState, scope: Scope, c: Commands): Result<JobState, ApplyError>
  {
    match AddSubjects(s.subjects, c.subjects)
    case Err(e) => Err(e)
    case Ok(subjects) => Ok(JobState(
        s.platform,
        WriteAll(s.environment, Unblocked(c.environment, s.platform), Folded(s.platform)),
        PrependAll(s.prependPath, c.path),
        ApplyOutputs(s.outputs, scope, c.output),
        ApplyStates(s.actionStates, scope.phase, c.state),
        SortSubjects(subjects)))
  }

  function Notices(s: JobState, scope: Scope, c: Commands): seq<Notice>
  {
    BlockNotices(c.environment, s.platform)
    + if scope.phase == RunPhase && c.state != [] then [StateIgnoredForRunStep] else []
  }

  /** One notice for each reserved environment write, in order and each with its reason, and one at the end when a run
      step wrote action state. */
  ghost predicate NoticesOfStep(notices: seq<Notice>, platform: Platform, scope: Scope, c: Commands)
  {
    exists blocked, at ::
      && NoticesReserved(blocked, c.environment, platform, at)
      && notices == blocked + if scope.phase == RunPhase && c.state != [] then [StateIgnoredForRunStep] else []
  }

  lemma StepNotices(s: JobState, scope: Scope, c: Commands)
    ensures NoticesOfStep(Notices(s, scope, c), s.platform, scope, c)
  {
    hide NoticesReserved, BlockNotices;
    var at := BlockNoticesExactly(c.environment, s.platform);
  }

  function Apply(s: JobState, scope: Scope, c: Commands, limits: Limits, listBytes: seq<Subject> -> nat)
    : Result<Application, ApplyError>
  {
    match Derive(s, scope, c)
    case Err(e) => Err(e)
    case Ok(next) =>
      match Validate(next, limits, listBytes)
      case Some(e) => Err(e)
      case None => Ok(Application(next, Notices(s, scope, c)))
  }

  lemma Snoc<T>(s: seq<T>, i: nat)
    requires i < |s|
    ensures s[..i + 1][..i] == s[..i] && s[..i + 1][i] == s[i]
  {
  }

  lemma UnblockedSnoc(ws: seq<NameValue>, i: nat, platform: Platform)
    requires i < |ws|
    ensures Unblocked(ws[..i + 1], platform) ==
              if Classify(platform, ws[i].name).Some? then Unblocked(ws[..i], platform) else Unblocked(ws[..i], platform) + [ws[i]]
    ensures BlockNotices(ws[..i + 1], platform) ==
              if Classify(platform, ws[i].name).Some? then BlockNotices(ws[..i], platform) + [Classify(platform, ws[i].name).value]
              else BlockNotices(ws[..i], platform)
  {
    hide Classify;
    Snoc(ws, i);
    assert Unblocked(ws[..i], platform) + [] == Unblocked(ws[..i], platform);
    assert BlockNotices(ws[..i], platform) + [] == BlockNotices(ws[..i], platform);
  }

  lemma WriteAllSnoc(base: seq<NameValue>, ws: seq<NameValue>, w: NameValue, folded: bool)
    ensures WriteAll(base, ws + [w], folded) == Write(WriteAll(base, ws, folded), w, folded)
  {
    hide Write;
    assert (ws + [w])[..|ws|] == ws;
  }

  lemma NothingYet(base: seq<NameValue>, platform: Platform, folded: bool)
    ensures Unblocked([], platform) == [] && BlockNotices([], platform) == [] && WriteAll(base, [], folded) == base
  {
  }

  /** The environment loop: blocked names leave a notice and nothing else. */
  method ApplyEnvironment(s: JobState, ws: seq<NameValue>) returns (environment: seq<NameValue>, notices: seq<Notice>)
    ensures environment == WriteAll(s.environment, Unblocked(ws, s.platform), Folded(s.platform))
    ensures notices == BlockNotices(ws, s.platform)
    ensures exists at :: NoticesReserved(notices, ws, s.platform, at)
    ensures forall past :: ReflectsWrites(s.environment, past, s.platform) ==> ReflectsWrites(environment, past + ws, s.platform)
  {
    hide Classify, Write, WriteAll, Unblocked, BlockNotices, ReflectsWrites, NoticesReserved;
    environment, notices := s.environment, [];
    assert ws[..0] == [];
    NothingYet(s.environment, s.platform, Folded(s.platform));
    for i := 0 to |ws|
      invariant environment == WriteAll(s.environment, Unblocked(ws[..i], s.platform), Folded(s.platform))
      invariant notices == BlockNotices(ws[..i], s.platform)
    {
      UnblockedSnoc(ws, i, s.platform);
      WriteAllSnoc(s.environment, Unblocked(ws[..i], s.platform), ws[i], Folded(s.platform));
      var reason := Classify(s.platform, ws[i].name);
      if reason.Some? {
        notices := notices + [reason.value];
      } else {
        environment := Write(environment, ws[i], Folded(s.platform));
      }
    }
    assert ws[..|ws|] == ws;
    ghost var at := BlockNoticesExactly(ws, s.platform);
    forall past | ReflectsWrites(s.environment, past, s.platform)
      ensures ReflectsWrites(environment, past + ws, s.platform)
    {
      EnvironmentHolds(s.environment, past, ws, s.platform);
    }
  }

  method ApplyWrites(base: seq<NameValue>, ws: seq<NameValue>) returns (values: seq<NameValue>)
    ensures values == WriteAll(base, ws, true)
  {
    hide Write;
    values := base;
    for i := 0 to |ws|
      invariant values == WriteAll(base, ws[..i], true)
    {
      Snoc(ws, i);
      values := Write(values, ws[i], true);
    }
    assert ws[..|ws|] == ws;
  }

  method ApplyPaths(base: seq<string>, ps: seq<string>) returns (paths: seq<string>)
    ensures paths == PrependAll(base, ps)
  {
    paths := base;
    for i := 0 to |ps|
      invariant paths == PrependAll(base, ps[..i])
    {
      Snoc(ps, i);
      paths := Without(paths, ps[i]);
      paths := paths + [ps[i]];
    }
    assert ps[..|ps|] == ps;
  }

  method ApplySubjects(base: seq<Subject>, more: seq<Subject>) returns (r: Result<seq<Subject>, ApplyError>)
    ensures r == AddSubjects(base, more)
  {
    var subjects := base;
    for i := 0 to |more|
      invariant AddSubjects(base, more[..i]) == Ok(subjects)
    {
      Snoc(more, i);
      var added := AddSubject(subjects, more[i]);
      if added.Err? {
        AddSubjectsFails(base, more, i + 1);
        return added;
      }
      subjects := added.value;
    }
    assert more[..|more|] == more;
    r := Ok(subjects);
  }

  lemma {:induction false} AddSubjectsFails(base: seq<Subject>, more: seq<Subject>, n: nat)
    requires n <= |more| && AddSubjects(base, more[..n]).Err?
    ensures AddSubjects(base, more) == AddSubjects(base, more[..n])
    decreases |more| - n
  {
    if n == |more| {
      assert more[..n] == more;
    } else {
      Snoc(more, n);
      AddSubjectsFails(base, more, n + 1);
    }
  }

  /** `apply_completed_step`: the input state is not changed, whatever the outcome. */
  method ApplyCompletedStep(
      current: JobState, scope: Scope, commands: Commands, limits: Limits, listBytes: seq<Subject> -> nat)
    returns (r: Result<Application, ApplyError>)
    ensures r == Apply(current, scope, commands, limits, listBytes)
    ensures r.Ok? ==> NoticesOfStep(r.value.notices, current.platform, scope, commands)
  {
    hide NoticesOfStep, WriteAll, PrependAll, AddSubjects, SortSubjects, Others, WithoutFirst, TotalBytes, Unblocked, BlockNotices;
    var next := current;
    var environment, notices := ApplyEnvironment(current, commands.environment);
    next := next.(environment := environment);
    var paths := ApplyPaths(next.prependPath, commands.path);
    next := next.(prependPath := paths);
    if !scope.phase.ActionPre? {
      var base := if scope.phase.ActionPost? then ValuesOf(next.outputs, scope.stepId) else [];
      var outputs := ApplyWrites(base, commands.output);
      next := next.(outputs := Others(next.outputs, scope.stepId) + Recorded(scope.stepId, outputs));
    }
    if scope.phase == RunPhase {
      if commands.state != [] {
        notices := notices + [StateIgnoredForRunStep];
      }
    } else {
      var invocation := scope.phase.invocation;
      var state := ApplyWrites(ValuesOf(next.actionStates, invocation), commands.state);
      next := next.(actionStates := WithoutFirst(next.actionStates, invocation) + Recorded(invocation, state));
    }
    var subjects := ApplySubjects(next.subjects, commands.subjects);
    if subjects.Err? {
      return Err(subjects.error);
    }
    next := next.(subjects := SortSubjects(subjects.value));
    var invalid := ValidateDerivedState(next, limits, listBytes);
    if invalid.Some? {
      return Err(invalid.value);
    }
    assert BlockNotices(commands.environment, current.platform) + [] == BlockNotices(commands.environment, current.platform);
    StepNotices(current, scope, commands);
    r := Ok(Application(next, notices));
  }

  method ValidateDerivedState(s: JobState, limits: Limits, listBytes: seq<Subject> -> nat) returns (r: Option<ApplyError>)
    ensures r == Validate(s, limits, listBytes)
  {
    hide TotalBytes;
    if |s.environment| > limits.environmentEntries {
      return Some(TooManyEnvironmentEntries);
    }
    if |s.prependPath| > limits.pathEntries {
      return Some(TooManyPathEntries);
    }
    if |s.outputs| > limits.steps {
      return Some(TooManySteps);
    }
    if |s.actionStates| > limits.actionStates {
      return Some(TooManyActionStates);
    }
    if listBytes(s.subjects) > MAX_LIST_BYTES {
      return Some(ArtifactListTooLarge);
    }
    var total := StateAggregateBytes(s);
    var aggregate := if total.Some? then total.value else USIZE_LIMIT - 1;
    r := if aggregate > limits.aggregateBytes then Some(AggregateTooLarge) else None;
  }
}

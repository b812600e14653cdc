/** Concurrent resolutions over replicated read-through indexes
    (crates/automata-ci-action/src/shared_cache.rs and resolver.rs).

    Any number of replicas each hold one bounded local index in front of one shared,
    write-once record store and one write-once blob store. Every await point of
    `resolve`, `get` and `put_if_absent` is one atomic step here, so an action sequence
    is one interleaving. Each step may fail, and a failing store write may or may not
    have taken effect. */
module ReferenceProtocol {

  import opened Text
  import opened Utf8
  import opened ActionReferences

  type ReplicaId = nat
  type ClientId = nat
  type Records = map<BlobKey, Document>
  type Blobs = map<BlobKey, seq<byte>>

  datatype Failure =
    ScmFailed | ArchiveRejected | BlobStoreFailed | ReferenceCacheFailed | LocalConflict | Internal | Cancelled

  /** Where one resolution stands. A reference is present for public exact commits only. */
  datatype Phase =
    | Idle
    | ReadingLocal(reference: Reference)
    | ReadingShared(reference: Reference)
    | RepairingLocal(reference: Reference, bundle: Bundle)
    | LoadingArchive(reference: Reference, bundle: Bundle)
    | Fetching(request: Option<Reference>)
    | PublishingArchive(request: Option<Reference>, resolved: GitObjectId, bytes: seq<byte>)
    | PublishingShared(bundle: Bundle, bytes: seq<byte>)
    | PublishingLocal(bundle: Bundle, bytes: seq<byte>)
    | Resolved(request: Option<Reference>, archive: BlobDescriptor, bytes: seq<byte>)
    | Failed(failure: Failure)

  datatype Client = Client(replica: ReplicaId, phase: Phase)

  datatype Replica = Replica(maximum: nat, entries: Entries)

  datatype System = System(
    records: Records, blobs: Blobs,
    replicas: map<ReplicaId, Replica>, clients: map<ClientId, Client>)

  /** What the environment decides about the next step of a client. */
  datatype Choice =
    | Begin(request: Option<Reference>)
    | Perform
    | Refuse
    | RefuseAfterWrite
    | Reject
    | Answer(resolved: GitObjectId, bytes: seq<byte>)
    | LocalArchive(bytes: seq<byte>)

  datatype Action =
    | Act(client: ClientId, choice: Choice)
    | Cancel(client: ClientId)
    | RestartReplica(replica: ReplicaId)

  // ----- Store operations -----

  /** `ObjectActionReferenceIndex::get`. */
  function SharedGet(records: Records, reference: Reference): Result<Option<Bundle>, IndexError>
  {
    var key := SharedReferenceKey(reference);
    if key !in records then Ok(None)
    else match TryIntoBundle(records[key])
      case Err(e) => Err(e)
      case Ok(b) => if b.reference != reference then Err(Corrupt) else Ok(Some(b))
  }

  /** `ObjectActionReferenceIndex::put_if_absent` over a write-once record store. */
  function SharedPut(records: Records, bundle: Bundle): (Records, Result<PutOutcome, IndexError>)
  {
    var key := SharedReferenceKey(bundle.reference);
    if key !in records then (records[key := FromBundle(bundle)], Ok(Created))
    else if records[key] == FromBundle(bundle) then (records, Ok(AlreadyPresent))
    else (records, Err(Conflict))
  }

  function ArchivePut(blobs: Blobs, bytes: seq<byte>): (Blobs, bool)
  {
    var key := ArchiveKey(Sha256(bytes));
    if key !in blobs then (blobs[key := bytes], true) else (blobs, blobs[key] == bytes)
  }

  predicate Verified(archive: BlobDescriptor, bytes: seq<byte>)
  {
    Sha256(bytes) == archive.digest && |bytes| == archive.size
  }

  predicate Stored(blobs: Blobs, archive: BlobDescriptor)
  {
    archive.key in blobs && Verified(archive, blobs[archive.key])
  }

  function ArchiveDescriptor(bytes: seq<byte>): BlobDescriptor
  {
    BlobDescriptor(ArchiveKey(Sha256(bytes)), Sha256(bytes), |bytes|, GZIP)
  }

  // ----- Steps -----

  /** The part of the system one client step may read and write. */
  datatype View = View(records: Records, blobs: Blobs, entries: Entries, phase: Phase)

  function AfterArchive(request: Option<Reference>, resolved: GitObjectId, bytes: seq<byte>): Phase
  {
    var archive := ArchiveDescriptor(bytes);
    match request
    case None => Resolved(None, archive, bytes)
    case Some(reference) =>
      match NewBundle(reference, resolved, archive)
      case None => Failed(Internal)
      case Some(bundle) => PublishingShared(bundle, bytes)
  }

  ghost function StepView(v: View, maximum: nat, choice: Choice): View
    requires maximum > 0
  {
    match v.phase
    case Idle => BeginStep(v, choice)
    case Resolved(_, _, _) => BeginStep(v, choice)
    case Failed(_) => BeginStep(v, choice)
    case ReadingLocal(r) => ReadLocalStep(v, r, choice)
    case ReadingShared(r) => v.(phase := ReadSharedStep(v.records, r, choice))
    case RepairingLocal(r, b) => PutLocalStep(v, maximum, b, LoadingArchive(r, b), choice)
    case LoadingArchive(r, b) => v.(phase := LoadStep(v.blobs, r, b, choice))
    case Fetching(request) => v.(phase := FetchStep(request, choice))
    case PublishingArchive(request, resolved, bytes) => PublishArchiveStep(v, request, resolved, bytes, choice)
    case PublishingShared(b, bytes) => PublishSharedStep(v, b, bytes, choice)
    case PublishingLocal(b, bytes) =>
      PutLocalStep(v, maximum, b, Resolved(Some(b.reference), b.archive, bytes), choice)
  }

  function ReadLocalStep(v: View, r: Reference, choice: Choice): View
  {
    if choice == Perform && r in v.entries then v.(phase := LoadingArchive(r, v.entries[r]))
    else v.(phase := ReadingShared(r))
  }

  function ReadSharedStep(records: Records, r: Reference, choice: Choice): Phase
  {
    if choice != Perform then Failed(ReferenceCacheFailed)
    else match SharedGet(records, r)
      case Err(_) => Failed(ReferenceCacheFailed)
      case Ok(None) => Fetching(Some(r))
      case Ok(Some(b)) => RepairingLocal(r, b)
  }

  /** A local put after the shared store answered. Only a conflict is an error. */
  ghost function PutLocalStep(v: View, maximum: nat, b: Bundle, next: Phase, choice: Choice): View
    requires maximum > 0
  {
    if choice != Perform then v.(phase := next)
    else
      var (entries, outcome) := LocalPut(v.entries, maximum, b);
      if outcome == Err(Conflict) then v.(phase := Failed(LocalConflict))
      else v.(entries := entries, phase := next)
  }

  function FetchStep(request: Option<Reference>, choice: Choice): Phase
  {
    if choice.Answer? then PublishingArchive(request, choice.resolved, choice.bytes)
    else Failed(if choice == Reject then ArchiveRejected else ScmFailed)
  }

  function PublishArchiveStep(
      v: View, request: Option<Reference>, resolved: GitObjectId, bytes: seq<byte>, choice: Choice): View
  {
    var (blobs, accepted) := ArchivePut(v.blobs, bytes);
    if choice == Perform && accepted then v.(blobs := blobs, phase := AfterArchive(request, resolved, bytes))
    else if choice == RefuseAfterWrite then v.(blobs := blobs, phase := Failed(BlobStoreFailed))
    else v.(phase := Failed(BlobStoreFailed))
  }

  function PublishSharedStep(v: View, b: Bundle, bytes: seq<byte>, choice: Choice): View
  {
    var (records, outcome) := SharedPut(v.records, b);
    if choice == Perform && outcome.Ok? then v.(records := records, phase := PublishingLocal(b, bytes))
    else if choice == RefuseAfterWrite then v.(records := records, phase := Failed(ReferenceCacheFailed))
    else v.(phase := Failed(ReferenceCacheFailed))
  }

  function BeginStep(v: View, choice: Choice): View
  {
    if choice.Begin? && choice.request.None? then v.(phase := Fetching(None))
    else if choice.Begin? && ValidReference(choice.request.value) then v.(phase := ReadingLocal(choice.request.value))
    else v
  }

  /** `load_cached_blob`: the host-local cache may answer with any verified bytes. */
  function LoadStep(blobs: Blobs, reference: Reference, bundle: Bundle, choice: Choice): Phase
  {
    if bundle.reference != reference then Failed(ReferenceCacheFailed)
    else if choice.LocalArchive? && Verified(bundle.archive, choice.bytes) then
      Resolved(Some(reference), bundle.archive, choice.bytes)
    else if choice == Perform && Stored(blobs, bundle.archive) then
      Resolved(Some(reference), bundle.archive, blobs[bundle.archive.key])
    else if choice == Reject then Failed(ArchiveRejected)
    else Failed(BlobStoreFailed)
  }

  predicate WellFormed(s: System)
  {
    && (forall i :: i in s.replicas ==> s.replicas[i].maximum > 0)
    && (forall c :: c in s.clients ==> s.clients[c].replica in s.replicas)
  }

  function ViewOf(s: System, c: ClientId): View
    requires WellFormed(s) && c in s.clients
  {
    View(s.records, s.blobs, s.replicas[s.clients[c].replica].entries, s.clients[c].phase)
  }

  function WithView(s: System, c: ClientId, v: View): System
    requires WellFormed(s) && c in s.clients
  {
    var i := s.clients[c].replica;
    System(v.records, v.blobs, s.replicas[i := s.replicas[i].(entries := v.entries)],
           s.clients[c := s.clients[c].(phase := v.phase)])
  }

  ghost function Step(s: System, a: Action): (t: System)
    requires WellFormed(s)
    ensures WellFormed(t)
  {
    match a
    case Act(c, choice) =>
      if c !in s.clients then s
      else WithView(s, c, StepView(ViewOf(s, c), s.replicas[s.clients[c].replica].maximum, choice))
    case Cancel(c) =>
      if c !in s.clients then s
      else s.(clients := s.clients[c := s.clients[c].(phase := Failed(Cancelled))])
    case RestartReplica(i) =>
      if i !in s.replicas then s
      else s.(replicas := s.replicas[i := s.replicas[i].(entries := map[])])
  }

  ghost function Run(s: System, actions: seq<Action>): (t: System)
    requires WellFormed(s)
    ensures WellFormed(t)
    decreases |actions|
  {
    if actions == [] then s else Run(Step(s, actions[0]), actions[1..])
  }

  /** Local indexes start empty and clients idle. The shared stores may already hold anything,
      even corrupt records, as long as each readable record's archive is stored. */
  ghost predicate Initial(s: System)
  {
    && WellFormed(s)
    && (forall i :: i in s.replicas ==> s.replicas[i].entries == map[])
    && (forall c :: c in s.clients ==> s.clients[c].phase == Idle)
    && NoDanglingReference(s.records, s.blobs)
  }

  // ----- Invariant -----

  predicate Published(records: Records, b: Bundle)
  {
    SharedGet(records, b.reference) == Ok(Some(b))
  }

  ghost predicate NoDanglingReference(records: Records, blobs: Blobs)
  {
    forall b :: Published(records, b) ==> Stored(blobs, b.archive)
  }

  predicate EntriesPublished(records: Records, entries: Entries)
  {
    forall r :: r in entries ==> entries[r].reference == r && Published(records, entries[r])
  }

  /** Every bundle a resolution holds after the shared store answered is the shared one. */
  ghost predicate PhaseSound(records: Records, blobs: Blobs, phase: Phase)
  {
    match phase
    case Idle => true
    case ReadingLocal(r) => ValidReference(r)
    case ReadingShared(r) => ValidReference(r)
    case RepairingLocal(r, b) => b.reference == r && Published(records, b)
    case LoadingArchive(r, b) => b.reference == r && Published(records, b)
    case Fetching(request) => request.Some? ==> ValidReference(request.value)
    case PublishingArchive(request, _, _) => request.Some? ==> ValidReference(request.value)
    case PublishingShared(b, bytes) => ValidBundle(b) && Stored(blobs, b.archive) && Verified(b.archive, bytes)
    case PublishingLocal(b, bytes) => Published(records, b) && Verified(b.archive, bytes)
    case Resolved(request, archive, bytes) =>
      && Verified(archive, bytes)
      && (request.Some? ==> exists b :: Published(records, b) && b.reference == request.value && b.archive == archive)
    case Failed(failure) => failure != LocalConflict
  }

  ghost predicate ViewSound(v: View, maximum: nat)
  {
    && |v.entries| <= maximum
    && EntriesPublished(v.records, v.entries)
    && NoDanglingReference(v.records, v.blobs)
    && PhaseSound(v.records, v.blobs, v.phase)
  }

  ghost predicate Inv(s: System)
  {
    && WellFormed(s)
    && (forall i :: i in s.replicas ==>
          |s.replicas[i].entries| <= s.replicas[i].maximum && EntriesPublished(s.records, s.replicas[i].entries))
    && (forall c :: c in s.clients ==> PhaseSound(s.records, s.blobs, s.clients[c].phase))
    && NoDanglingReference(s.records, s.blobs)
  }

  /** Write-once growth of both shared stores. */
  predicate Grows(records: Records, blobs: Blobs, records': Records, blobs': Blobs)
  {
    && (forall k :: k in records ==> k in records' && records'[k] == records[k])
    && (forall k :: k in blobs ==> k in blobs' && blobs'[k] == blobs[k])
  }

  lemma GrowthKeepsPublished(records: Records, blobs: Blobs, records': Records, blobs': Blobs, b: Bundle)
    requires Grows(records, blobs, records', blobs')
    ensures Published(records, b) ==> Published(records', b)
    ensures Stored(blobs, b.archive) ==> Stored(blobs', b.archive)
  {
    assert SharedReferenceKey(b.reference) in records ==> SharedReferenceKey(b.reference) in records';
  }

  lemma GrowthKeepsSound(records: Records, blobs: Blobs, records': Records, blobs': Blobs, phase: Phase)
    requires Grows(records, blobs, records', blobs')
    requires PhaseSound(records, blobs, phase)
    ensures PhaseSound(records', blobs', phase)
  {
    forall b: Bundle {
      GrowthKeepsPublished(records, blobs, records', blobs', b);
    }
  }

  lemma GrowthKeepsEntries(records: Records, blobs: Blobs, records': Records, blobs': Blobs, entries: Entries)
    requires Grows(records, blobs, records', blobs') && EntriesPublished(records, entries)
    ensures EntriesPublished(records', entries)
  {
    forall r | r in entries
      ensures Published(records', entries[r])
    {
      GrowthKeepsPublished(records, blobs, records', blobs', entries[r]);
    }
  }

  /** A shared put publishes exactly its own bundle and disturbs no other lookup. */
  lemma SharedPutPublishes(records: Records, b: Bundle)
    requires ValidBundle(b)
    ensures var (records', outcome) := SharedPut(records, b);
            && Grows(records, map[], records', map[])
            && (outcome.Ok? ==> Published(records', b))
            && (outcome == Err(Conflict) <==> SharedGet(records, b.reference) !in {Ok(None), Ok(Some(b))})
            && forall q :: ValidReference(q) && q != b.reference ==> SharedGet(records', q) == SharedGet(records, q)
  {
    DocumentRoundTrip(b, FromBundle(b));
    var key := SharedReferenceKey(b.reference);
    if key in records {
      DocumentRoundTrip(b, records[key]);
    }
    forall q | ValidReference(q) && q != b.reference
      ensures SharedReferenceKey(q) != key
    {
      if SharedReferenceKey(q) == key {
        SharedReferenceKeyInjective(q, b.reference);
      }
    }
  }

  /** Only the bundle being put can become readable by a shared put. */
  lemma SharedPutAddsOnly(records: Records, b: Bundle, o: Bundle)
    requires ValidBundle(b) && Published(SharedPut(records, b).0, o)
    ensures o == b || Published(records, o)
  {
    DocumentRoundTrip(b, FromBundle(b));
  }

  /** Putting the shared bundle into a local index that agrees with the shared one succeeds and keeps it so. */
  lemma PutLocalEntries(records: Records, entries: Entries, maximum: nat, b: Bundle)
    requires maximum > 0 && |entries| <= maximum && EntriesPublished(records, entries) && Published(records, b)
    ensures var (after, outcome) := LocalPut(entries, maximum, b);
            outcome.Ok? && |after| <= maximum && EntriesPublished(records, after)
  {
    hide SharedGet, Evicted;
    LocalPutKeeps(entries, maximum, b);
    if b.reference in entries {
      assert Published(records, entries[b.reference]);
    }
  }

  lemma PutLocalSound(v: View, maximum: nat, b: Bundle, next: Phase, choice: Choice)
    requires maximum > 0 && ViewSound(v, maximum)
    requires Published(v.records, b) && PhaseSound(v.records, v.blobs, next)
    ensures ViewSound(PutLocalStep(v, maximum, b, next, choice), maximum)
    ensures var w := PutLocalStep(v, maximum, b, next, choice); Grows(v.records, v.blobs, w.records, w.blobs)
  {
    hide PhaseSound, NoDanglingReference, EntriesPublished, LocalPut, Published;
    PutLocalEntries(v.records, v.entries, maximum, b);
  }

  lemma PublishArchiveSound(
      v: View, maximum: nat, request: Option<Reference>, resolved: GitObjectId, bytes: seq<byte>, choice: Choice)
    requires ViewSound(v, maximum) && (request.Some? ==> ValidReference(request.value))
    ensures ViewSound(PublishArchiveStep(v, request, resolved, bytes, choice), maximum)
    ensures var w := PublishArchiveStep(v, request, resolved, bytes, choice); Grows(v.records, v.blobs, w.records, w.blobs)
  {
    hide Published, EntriesPublished, ValidReference;
    assert PhaseSound(v.records, v.blobs, Failed(BlobStoreFailed));
    var w := PublishArchiveStep(v, request, resolved, bytes, choice);
    forall o | Published(w.records, o)
      ensures Stored(w.blobs, o.archive)
    {
      GrowthKeepsPublished(v.records, v.blobs, w.records, w.blobs, o);
    }
  }

  lemma PublishSharedSound(v: View, maximum: nat, b: Bundle, bytes: seq<byte>, choice: Choice)
    requires ViewSound(v, maximum)
    requires ValidBundle(b) && Stored(v.blobs, b.archive) && Verified(b.archive, bytes)
    ensures ViewSound(PublishSharedStep(v, b, bytes, choice), maximum)
    ensures var w := PublishSharedStep(v, b, bytes, choice); Grows(v.records, v.blobs, w.records, w.blobs)
  {
    hide Published, SharedGet, EntriesPublished, ValidBundle, TryIntoBundle, SharedReferenceKey;
    var w := PublishSharedStep(v, b, bytes, choice);
    SharedPutPublishes(v.records, b);
    GrowthKeepsEntries(v.records, v.blobs, w.records, w.blobs, v.entries);
    forall o | Published(w.records, o)
      ensures Stored(w.blobs, o.archive)
    {
      if w.records != v.records { SharedPutAddsOnly(v.records, b, o); }
    }
  }

  lemma ReadSharedSound(records: Records, blobs: Blobs, r: Reference, choice: Choice)
    requires ValidReference(r)
    ensures PhaseSound(records, blobs, ReadSharedStep(records, r, choice))
  {
  }

  lemma ReadLocalSound(v: View, maximum: nat, r: Reference, choice: Choice)
    requires ViewSound(v, maximum) && ValidReference(r)
    ensures ViewSound(ReadLocalStep(v, r, choice), maximum)
    ensures var w := ReadLocalStep(v, r, choice); Grows(v.records, v.blobs, w.records, w.blobs)
  {
    hide SharedGet, NoDanglingReference, ValidReference;
  }

  lemma LoadSound(records: Records, blobs: Blobs, r: Reference, b: Bundle, choice: Choice)
    requires b.reference == r && Published(records, b)
    ensures PhaseSound(records, blobs, LoadStep(blobs, r, b, choice))
  {
  }

  lemma BeginSound(v: View, maximum: nat, choice: Choice)
    requires ViewSound(v, maximum)
    ensures ViewSound(BeginStep(v, choice), maximum)
    ensures var w := BeginStep(v, choice); Grows(v.records, v.blobs, w.records, w.blobs)
  {
    hide Published, EntriesPublished, NoDanglingReference, ValidReference;
  }

  lemma FetchSound(records: Records, blobs: Blobs, request: Option<Reference>, choice: Choice)
    requires request.Some? ==> ValidReference(request.value)
    ensures PhaseSound(records, blobs, FetchStep(request, choice))
  {
    hide ValidReference;
  }

  /** A step that changes nothing but the phase is sound when the new phase is. */
  lemma PhaseChangeSound(v: View, maximum: nat, p: Phase)
    requires ViewSound(v, maximum) && PhaseSound(v.records, v.blobs, p)
    ensures ViewSound(v.(phase := p), maximum) && Grows(v.records, v.blobs, v.records, v.blobs)
  {
    hide PhaseSound, EntriesPublished, NoDanglingReference;
  }

  lemma StepViewSound(v: View, maximum: nat, choice: Choice)
    requires maximum > 0 && ViewSound(v, maximum)
    ensures ViewSound(StepView(v, maximum, choice), maximum)
    ensures var w := StepView(v, maximum, choice); Grows(v.records, v.blobs, w.records, w.blobs)
  {
    hide Published, PutLocalStep, PublishSharedStep, PublishArchiveStep, ReadLocalStep, ReadSharedStep, LoadStep;
    hide BeginStep, FetchStep, Grows;
    hide NoDanglingReference, EntriesPublished, ValidReference, Stored, Verified, ValidBundle;
    match v.phase
    case ReadingLocal(r) => ReadLocalSound(v, maximum, r, choice);
    case ReadingShared(r) =>
      ReadSharedSound(v.records, v.blobs, r, choice);
      PhaseChangeSound(v, maximum, ReadSharedStep(v.records, r, choice));
    case LoadingArchive(r, b) =>
      LoadSound(v.records, v.blobs, r, b, choice);
      PhaseChangeSound(v, maximum, LoadStep(v.blobs, r, b, choice));
    case Fetching(request) =>
      FetchSound(v.records, v.blobs, request, choice);
      PhaseChangeSound(v, maximum, FetchStep(request, choice));
    case RepairingLocal(r, b) => PutLocalSound(v, maximum, b, LoadingArchive(r, b), choice);
    case PublishingLocal(b, bytes) =>
      PutLocalSound(v, maximum, b, Resolved(Some(b.reference), b.archive, bytes), choice);
    case PublishingShared(b, bytes) => PublishSharedSound(v, maximum, b, bytes, choice);
    case PublishingArchive(request, resolved, bytes) =>
      PublishArchiveSound(v, maximum, request, resolved, bytes, choice);
    case Idle => BeginSound(v, maximum, choice);
    case Resolved(_, _, _) => BeginSound(v, maximum, choice);
    case Failed(_) => BeginSound(v, maximum, choice);
  }

  lemma ActKeepsInv(s: System, c: ClientId, choice: Choice)
    requires Inv(s) && c in s.clients
    ensures Inv(Step(s, Act(c, choice)))
    ensures var t := Step(s, Act(c, choice)); Grows(s.records, s.blobs, t.records, t.blobs)
  {
    hide StepView, PhaseSound, EntriesPublished, NoDanglingReference;
    var t, i := Step(s, Act(c, choice)), s.clients[c].replica;
    StepViewSound(ViewOf(s, c), s.replicas[i].maximum, choice);
    forall j | j in t.replicas
      ensures |t.replicas[j].entries| <= t.replicas[j].maximum && EntriesPublished(t.records, t.replicas[j].entries)
    {
      if j != i { GrowthKeepsEntries(s.records, s.blobs, t.records, t.blobs, s.replicas[j].entries); }
    }
    forall d | d in t.clients
      ensures PhaseSound(t.records, t.blobs, t.clients[d].phase)
    {
      if d != c { GrowthKeepsSound(s.records, s.blobs, t.records, t.blobs, s.clients[d].phase); }
    }
  }

  lemma NothingHeldIsSound(records: Records, blobs: Blobs)
    ensures EntriesPublished(records, map[])
    ensures PhaseSound(records, blobs, Idle) && PhaseSound(records, blobs, Failed(Cancelled))
  {
  }

  /** Every step keeps the invariant, and the shared stores only grow. */
  lemma StepKeepsInv(s: System, a: Action)
    requires Inv(s)
    ensures Inv(Step(s, a))
    ensures var t := Step(s, a); Grows(s.records, s.blobs, t.records, t.blobs)
  {
    hide StepView, PhaseSound, EntriesPublished, NoDanglingReference;
    if a.Act? && a.client in s.clients {
      ActKeepsInv(s, a.client, a.choice);
    }
    NothingHeldIsSound(s.records, s.blobs);
  }

  lemma {:induction false} RunKeepsInv(s: System, actions: seq<Action>)
    requires Inv(s)
    ensures Inv(Run(s, actions))
    ensures var t := Run(s, actions); Grows(s.records, s.blobs, t.records, t.blobs)
    decreases |actions|
  {
    if actions != [] {
      StepKeepsInv(s, actions[0]);
      RunKeepsInv(Step(s, actions[0]), actions[1..]);
    }
  }

  lemma InitialIsSound(s: System)
    requires Initial(s)
    ensures Inv(s)
  {
  }

  // ----- Whole-run results -----

  /** In every interleaving: no local conflict, every local index within its bound and equal to the
      shared index where it answers, and no readable reference without its archive. */
  lemma SafetyInEveryRun(s: System, actions: seq<Action>)
    requires Initial(s)
    ensures var t := Run(s, actions);
            && (forall c :: c in t.clients ==> t.clients[c].phase != Failed(LocalConflict))
            && (forall i :: i in t.replicas ==> |t.replicas[i].entries| <= t.replicas[i].maximum)
            && (forall i, r :: i in t.replicas && r in t.replicas[i].entries ==>
                  SharedGet(t.records, r) == Ok(Some(t.replicas[i].entries[r])))
            && (forall r :: SharedGet(t.records, r).Ok? && SharedGet(t.records, r).value.Some? ==>
                  Stored(t.blobs, SharedGet(t.records, r).value.value.archive))
  {
    InitialIsSound(s);
    RunKeepsInv(s, actions);
    var t := Run(s, actions);
    forall i, r | i in t.replicas && r in t.replicas[i].entries
      ensures SharedGet(t.records, r) == Ok(Some(t.replicas[i].entries[r]))
    {
      assert EntriesPublished(t.records, t.replicas[i].entries);
    }
    forall r | SharedGet(t.records, r).Ok? && SharedGet(t.records, r).value.Some?
      ensures Stored(t.blobs, SharedGet(t.records, r).value.value.archive)
    {
      assert Published(t.records, SharedGet(t.records, r).value.value);
    }
  }

  lemma {:induction false} RunConcat(s: System, a: seq<Action>, b: seq<Action>)
    requires WellFormed(s)
    ensures Run(s, a + b) == Run(Run(s, a), b)
    decreases |a|
  {
    if a == [] {
      assert a + b == b;
    } else {
      assert (a + b)[1..] == a[1..] + b;
      RunConcat(Step(s, a[0]), a[1..], b);
    }
  }

  /** A finished public resolution holds the archive of the published bundle, verified. */
  lemma ResolvedIsPublished(s: System, c: ClientId, r: Reference) returns (b: Bundle)
    requires Inv(s) && c in s.clients
    requires s.clients[c].phase.Resolved? && s.clients[c].phase.request == Some(r)
    ensures Published(s.records, b) && b.reference == r
    ensures s.clients[c].phase == Resolved(Some(r), b.archive, b.archive.digest.preimage)
  {
    hide Published, EntriesPublished, NoDanglingReference;
    var p := s.clients[c].phase;
    assert PhaseSound(s.records, s.blobs, p);
    b :| Published(s.records, b) && b.reference == r && b.archive == p.archive;
  }

  /** What was published early in a run is still published later. */
  lemma PublishedForever(s: System, early: seq<Action>, late: seq<Action>, b: Bundle)
    requires Initial(s) && Published(Run(s, early).records, b)
    ensures Inv(Run(s, early + late)) && Published(Run(s, early + late).records, b)
  {
    hide Published, Inv, Initial;
    InitialIsSound(s);
    RunKeepsInv(s, early);
    RunConcat(s, early, late);
    RunKeepsInv(Run(s, early), late);
    var t, u := Run(s, early), Run(s, early + late);
    GrowthKeepsPublished(t.records, t.blobs, u.records, u.blobs, b);
  }

  /** All successful resolutions of one public exact reference, at any two times and on any replicas,
      return one archive descriptor and one content, whatever the SCM answered each of them. */
  lemma ResolutionsAgreeForever(
      s: System, early: seq<Action>, late: seq<Action>, c: ClientId, d: ClientId, r: Reference)
    requires Initial(s)
    requires c in Run(s, early).clients && d in Run(s, early + late).clients
    requires Run(s, early).clients[c].phase.Resolved? && Run(s, early + late).clients[d].phase.Resolved?
    requires Run(s, early).clients[c].phase.request == Some(r)
    requires Run(s, early + late).clients[d].phase.request == Some(r)
    ensures Run(s, early).clients[c].phase == Run(s, early + late).clients[d].phase
  {
    hide Inv, Initial, SharedGet, Step;
    InitialIsSound(s);
    RunKeepsInv(s, early);
    var b := ResolvedIsPublished(Run(s, early), c, r);
    PublishedForever(s, early, late, b);
    var o := ResolvedIsPublished(Run(s, early + late), d, r);
  }

  lemma PublishedIsNotFetched(records: Records, b: Bundle, choice: Choice)
    requires Published(records, b)
    ensures !ReadSharedStep(records, b.reference, choice).Fetching?
  {
  }

  /** Once a reference has been resolved, no later lookup of it misses and goes to the SCM. */
  lemma ResolvedReferenceNeverFetchesAgain(
      s: System, early: seq<Action>, late: seq<Action>, c: ClientId, d: ClientId, choice: Choice, r: Reference)
    requires Initial(s)
    requires c in Run(s, early).clients
    requires Run(s, early).clients[c].phase.Resolved? && Run(s, early).clients[c].phase.request == Some(r)
    requires d in Run(s, early + late).clients && Run(s, early + late).clients[d].phase == ReadingShared(r)
    ensures !Step(Run(s, early + late), Act(d, choice)).clients[d].phase.Fetching?
  {
    hide Inv, Initial, Published, ReadSharedStep, ReadLocalStep, PutLocalStep, LoadStep;
    hide PublishSharedStep, PublishArchiveStep, FetchStep, BeginStep;
    InitialIsSound(s);
    RunKeepsInv(s, early);
    var b := ResolvedIsPublished(Run(s, early), c, r);
    PublishedForever(s, early, late, b);
    PublishedIsNotFetched(Run(s, early + late).records, b, choice);
  }

  /** The bundle a resolution carries between a store's answer and its own result. */
  function InFlight(phase: Phase): Option<Bundle>
  {
    match phase
    case RepairingLocal(_, b) => Some(b)
    case LoadingArchive(_, b) => Some(b)
    case PublishingLocal(b, _) => Some(b)
    case _ => None
  }

  /** Everything that answers for a reference: a bundle in flight, a local mapping, a shared record. */
  ghost predicate Answers(s: System, b: Bundle)
  {
    || (exists c :: c in s.clients && InFlight(s.clients[c].phase) == Some(b))
    || (exists i :: i in s.replicas && b.reference in s.replicas[i].entries && s.replicas[i].entries[b.reference] == b)
    || Published(s.records, b)
  }

  lemma AnswersArePublished(s: System, b: Bundle)
    requires Inv(s) && Answers(s, b)
    ensures Published(s.records, b)
  {
    hide SharedGet, NoDanglingReference, Published;
    if c :| c in s.clients && InFlight(s.clients[c].phase) == Some(b) {
      assert PhaseSound(s.records, s.blobs, s.clients[c].phase);
    } else if i :| i in s.replicas && b.reference in s.replicas[i].entries && s.replicas[i].entries[b.reference] == b {
      assert EntriesPublished(s.records, s.replicas[i].entries);
    }
  }

  /** In every run, every lookup of one reference that finds anything finds one bundle forever: in flight, in any
      local index or in the shared index, at any two times. */
  lemma LookupsAgreeForever(s: System, early: seq<Action>, late: seq<Action>, a: Bundle, b: Bundle)
    requires Initial(s) && a.reference == b.reference
    requires Answers(Run(s, early), a) && Answers(Run(s, early + late), b)
    ensures a == b
  {
    hide Inv, Initial, SharedGet, Step, Answers;
    InitialIsSound(s);
    RunKeepsInv(s, early);
    AnswersArePublished(Run(s, early), a);
    PublishedForever(s, early, late, a);
    AnswersArePublished(Run(s, early + late), b);
  }

  /** The smallest instance of what the local index does by itself: after one eviction it accepts a contradiction. */
  lemma LocalIndexAloneForgets(a: Bundle, b: Bundle, contradiction: Bundle)
    requires a.reference != b.reference && contradiction.reference == a.reference && contradiction != a
    ensures var first := LocalPut(map[], 1, a).0;
            var second := LocalPut(first, 1, b).0;
            && LocalPut(first, 1, contradiction).1 == Err(Conflict)
            && LocalPut(second, 1, contradiction).1 == Ok(Created)
  {
    var first := LocalPut(map[], 1, a).0;
    assert first == map[a.reference := a];
    assert Least(first.Keys) == a.reference;
    assert |first.Keys| == |first|;
  }
}

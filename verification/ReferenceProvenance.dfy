/** Where the archives of resolved actions come from, and that undisturbed resolutions finish
    (crates/automata-ci-action/src/resolver.rs and shared_cache.rs). */
module ReferenceProvenance {

  import opened Text
  import opened Utf8
  import opened ActionReferences
  import opened ReferenceProtocol

  // ----- Answers of the SCM -----

  /** In this run, client `c` asked the SCM for `request` and was answered this revision and these bytes. */
  ghost predicate AnsweredTo(s: System, actions: seq<Action>, c: ClientId, request: Option<Reference>, resolved: GitObjectId, bytes: seq<byte>)
    requires WellFormed(s)
  {
    exists i :: 0 <= i < |actions| && actions[i] == Act(c, Answer(resolved, bytes)) && AsksAt(s, actions, i, c, request)
  }

  ghost predicate AsksAt(s: System, actions: seq<Action>, i: nat, c: ClientId, request: Option<Reference>)
    requires WellFormed(s) && i <= |actions|
  {
    c in Run(s, actions[..i]).clients && Run(s, actions[..i]).clients[c].phase == Fetching(request)
  }

  /** The descriptor of an archive: its digest, also in its key, its size and its media type. */
  predicate Describes(archive: BlobDescriptor, bytes: seq<byte>)
  {
    archive == BlobDescriptor(ArchiveKey(Sha256(bytes)), Sha256(bytes), |bytes|, "application/gzip")
  }

  /** The SCM answered client `c` with exactly what this bundle says. */
  ghost predicate Supplied(s: System, actions: seq<Action>, c: ClientId, b: Bundle, bytes: seq<byte>)
    requires WellFormed(s)
  {
    AnsweredTo(s, actions, c, Some(b.reference), b.resolvedRevision, bytes) && Describes(b.archive, bytes)
  }

  ghost predicate SuppliedToSomeone(s: System, actions: seq<Action>, b: Bundle)
    requires WellFormed(s)
  {
    exists c, bytes :: Supplied(s, actions, c, b, bytes)
  }

  /** What a client is about to publish or has resolved without a cache is its own answer. */
  ghost predicate OwnAnswer(s: System, actions: seq<Action>, c: ClientId, phase: Phase)
    requires WellFormed(s)
  {
    match phase
    case PublishingArchive(request, resolved, bytes) => AnsweredTo(s, actions, c, request, resolved, bytes)
    case PublishingShared(b, bytes) => Supplied(s, actions, c, b, bytes)
    case PublishingLocal(b, bytes) => Supplied(s, actions, c, b, bytes)
    case Resolved(None, archive, bytes) =>
      Describes(archive, bytes) && exists resolved :: AnsweredTo(s, actions, c, None, resolved, bytes)
    case _ => true
  }

  ghost predicate Traced(s: System, actions: seq<Action>)
    requires WellFormed(s)
  {
    var t := Run(s, actions);
    && (forall c :: c in t.clients ==> OwnAnswer(s, actions, c, t.clients[c].phase))
    && (forall b :: Published(t.records, b) ==> Published(s.records, b) || SuppliedToSomeone(s, actions, b))
  }

  // ----- One more action -----

  lemma RunSnoc(s: System, actions: seq<Action>, a: Action)
    requires WellFormed(s)
    ensures Run(s, actions + [a]) == Step(Run(s, actions), a)
  {
    hide Step;
    RunConcat(s, actions, [a]);
    assert [a][1..] == [];
  }

  lemma AnswersStay(s: System, actions: seq<Action>, a: Action, c: ClientId, request: Option<Reference>, resolved: GitObjectId, bytes: seq<byte>)
    requires WellFormed(s) && AnsweredTo(s, actions, c, request, resolved, bytes)
    ensures AnsweredTo(s, actions + [a], c, request, resolved, bytes)
  {
    hide Run;
    var i :| 0 <= i < |actions| && actions[i] == Act(c, Answer(resolved, bytes)) && AsksAt(s, actions, i, c, request);
    var all := actions + [a];
    assert all[i] == actions[i] && all[..i] == actions[..i];
    assert AsksAt(s, all, i, c, request);
  }

  lemma SuppliedStays(s: System, actions: seq<Action>, a: Action, c: ClientId, b: Bundle, bytes: seq<byte>)
    requires WellFormed(s) && Supplied(s, actions, c, b, bytes)
    ensures Supplied(s, actions + [a], c, b, bytes)
  {
    hide AnsweredTo;
    AnswersStay(s, actions, a, c, Some(b.reference), b.resolvedRevision, bytes);
  }

  lemma OwnAnswerStays(s: System, actions: seq<Action>, a: Action, c: ClientId, phase: Phase)
    requires WellFormed(s) && OwnAnswer(s, actions, c, phase)
    ensures OwnAnswer(s, actions + [a], c, phase)
  {
    hide AnsweredTo, Supplied;
    match phase {
      case PublishingArchive(request, resolved, bytes) => AnswersStay(s, actions, a, c, request, resolved, bytes);
      case PublishingShared(b, bytes) => SuppliedStays(s, actions, a, c, b, bytes);
      case PublishingLocal(b, bytes) => SuppliedStays(s, actions, a, c, b, bytes);
      case Resolved(None, archive, bytes) =>
        var resolved :| AnsweredTo(s, actions, c, None, resolved, bytes);
        AnswersStay(s, actions, a, c, None, resolved, bytes);
      case _ =>
    }
  }

  /** An answer received now. */
  lemma AnswerIsOwn(s: System, actions: seq<Action>, c: ClientId, request: Option<Reference>, resolved: GitObjectId, bytes: seq<byte>)
    requires WellFormed(s) && c in Run(s, actions).clients && Run(s, actions).clients[c].phase == Fetching(request)
    ensures AnsweredTo(s, actions + [Act(c, Answer(resolved, bytes))], c, request, resolved, bytes)
  {
    hide Run;
    var all, i := actions + [Act(c, Answer(resolved, bytes))], |actions|;
    assert all[..i] == actions && all[i] == Act(c, Answer(resolved, bytes));
    assert AsksAt(s, all, i, c, request);
  }

  lemma ArchiveFollows(
      s: System, actions: seq<Action>, c: ClientId, v: View, request: Option<Reference>, resolved: GitObjectId, bytes: seq<byte>, choice: Choice)
    requires WellFormed(s) && OwnAnswer(s, actions, c, PublishingArchive(request, resolved, bytes))
    ensures OwnAnswer(s, actions, c, PublishArchiveStep(v, request, resolved, bytes, choice).phase)
  {
    hide AnsweredTo, ArchivePut;
  }

  lemma SharedFollows(s: System, actions: seq<Action>, c: ClientId, v: View, b: Bundle, bytes: seq<byte>, choice: Choice)
    requires WellFormed(s) && OwnAnswer(s, actions, c, PublishingShared(b, bytes))
    ensures OwnAnswer(s, actions, c, PublishSharedStep(v, b, bytes, choice).phase)
  {
    hide Supplied, SharedPut;
  }

  /** The other steps publish nothing: they look something up, or end. */
  predicate Unpublishing(phase: Phase)
  {
    !(phase.PublishingArchive? || phase.PublishingShared? || phase.PublishingLocal?) && !(phase.Resolved? && phase.request.None?)
  }

  lemma OthersFollow(v: View, maximum: nat, choice: Choice)
    requires maximum > 0 && !v.phase.PublishingArchive? && !v.phase.PublishingShared?
    ensures || (v.phase.Fetching? && choice.Answer?)
            || StepView(v, maximum, choice).phase == v.phase
            || Unpublishing(StepView(v, maximum, choice).phase)
  {
    hide LocalPut, SharedGet, Stored, ValidReference, Verified, PublishArchiveStep, PublishSharedStep;
  }

  /** What a client holds after its step was its answer before, or is its answer now. */
  lemma PhaseFollows(s: System, actions: seq<Action>, c: ClientId, v: View, maximum: nat, choice: Choice)
    requires WellFormed(s) && maximum > 0 && c in Run(s, actions).clients && Run(s, actions).clients[c].phase == v.phase
    requires OwnAnswer(s, actions, c, v.phase)
    ensures OwnAnswer(s, actions + [Act(c, choice)], c, StepView(v, maximum, choice).phase)
  {
    hide AnsweredTo, Supplied, Run, PublishArchiveStep, PublishSharedStep, PutLocalStep, ReadLocalStep, ReadSharedStep, LoadStep, BeginStep;
    var a := Act(c, choice);
    OwnAnswerStays(s, actions, a, c, v.phase);
    match v.phase {
      case PublishingArchive(request, resolved, bytes) => ArchiveFollows(s, actions + [a], c, v, request, resolved, bytes, choice);
      case PublishingShared(b, bytes) => SharedFollows(s, actions + [a], c, v, b, bytes, choice);
      case Fetching(request) =>
        if choice.Answer? { AnswerIsOwn(s, actions, c, request, choice.resolved, choice.bytes); }
      case _ => OthersFollow(v, maximum, choice);
    }
  }

  lemma RecordsStay(v: View, maximum: nat, choice: Choice)
    requires maximum > 0 && !v.phase.PublishingShared?
    ensures StepView(v, maximum, choice).records == v.records
  {
    hide LocalPut, ArchivePut, SharedGet, Stored, ValidReference, Verified, AfterArchive, PublishSharedStep, ReadSharedStep, LoadStep, FetchStep;
  }

  lemma SharedPublishesOwn(v: View, b: Bundle, bytes: seq<byte>, choice: Choice, o: Bundle)
    requires ValidBundle(b) && Published(PublishSharedStep(v, b, bytes, choice).records, o)
    ensures o == b || Published(v.records, o)
  {
    hide Published, SharedPut, ValidBundle;
    if PublishSharedStep(v, b, bytes, choice).records != v.records {
      SharedPutAddsOnly(v.records, b, o);
    }
  }

  /** A record that becomes readable is the one being published. */
  lemma PublishesOwn(v: View, maximum: nat, choice: Choice, b: Bundle)
    requires maximum > 0 && ViewSound(v, maximum) && Published(StepView(v, maximum, choice).records, b)
    ensures Published(v.records, b) || (v.phase.PublishingShared? && v.phase.bundle == b)
  {
    hide Published, PublishSharedStep, PublishArchiveStep, PutLocalStep, ReadLocalStep, ReadSharedStep, LoadStep, BeginStep;
    hide EntriesPublished, NoDanglingReference, Stored, Verified, ValidBundle;
    if v.phase.PublishingShared? {
      SharedPublishesOwn(v, v.phase.bundle, v.phase.bytes, choice, b);
    } else {
      RecordsStay(v, maximum, choice);
    }
  }

  lemma ActTraced(s: System, actions: seq<Action>, c: ClientId, choice: Choice)
    requires WellFormed(s) && Traced(s, actions) && Inv(Run(s, actions)) && c in Run(s, actions).clients
    ensures Traced(s, actions + [Act(c, choice)])
  {
    hide Run, OwnAnswer, StepView, PhaseSound, EntriesPublished, NoDanglingReference, Published, SuppliedToSomeone;
    var t, a := Run(s, actions), Act(c, choice);
    RunSnoc(s, actions, a);
    var v, maximum := ViewOf(t, c), t.replicas[t.clients[c].replica].maximum;
    PhaseFollows(s, actions, c, v, maximum, choice);
    var u := Run(s, actions + [a]);
    forall d | d in u.clients
      ensures OwnAnswer(s, actions + [a], d, u.clients[d].phase)
    {
      if d != c { OwnAnswerStays(s, actions, a, d, t.clients[d].phase); }
    }
    forall b | Published(u.records, b)
      ensures Published(s.records, b) || SuppliedToSomeone(s, actions + [a], b)
    {
      PublishesOwn(v, maximum, choice, b);
      if Published(t.records, b) {
        SuppliedToSomeoneStays(s, actions, a, b);
      } else {
        PublisherSupplied(s, actions, c, b, v.phase.bytes);
        SuppliedToSomeoneStays(s, actions, a, b);
      }
    }
  }

  lemma SuppliedToSomeoneStays(s: System, actions: seq<Action>, a: Action, b: Bundle)
    requires WellFormed(s)
    ensures SuppliedToSomeone(s, actions, b) ==> SuppliedToSomeone(s, actions + [a], b)
  {
    hide Supplied;
    if SuppliedToSomeone(s, actions, b) {
      var c, bytes :| Supplied(s, actions, c, b, bytes);
      SuppliedStays(s, actions, a, c, b, bytes);
    }
  }

  lemma PublisherSupplied(s: System, actions: seq<Action>, c: ClientId, b: Bundle, bytes: seq<byte>)
    requires WellFormed(s) && OwnAnswer(s, actions, c, PublishingShared(b, bytes))
    ensures SuppliedToSomeone(s, actions, b)
  {
    hide Supplied;
  }

  lemma OtherTraced(s: System, actions: seq<Action>, a: Action)
    requires WellFormed(s) && Traced(s, actions)
    requires a.Act? ==> a.client !in Run(s, actions).clients
    ensures Traced(s, actions + [a])
  {
    hide Run, Published, SuppliedToSomeone;
    var t := Run(s, actions);
    RunSnoc(s, actions, a);
    var u := Run(s, actions + [a]);
    forall d | d in u.clients
      ensures OwnAnswer(s, actions + [a], d, u.clients[d].phase)
    {
      if u.clients[d].phase == t.clients[d].phase { OwnAnswerStays(s, actions, a, d, t.clients[d].phase); }
    }
    forall b | Published(u.records, b)
      ensures Published(s.records, b) || SuppliedToSomeone(s, actions + [a], b)
    {
      SuppliedToSomeoneStays(s, actions, a, b);
    }
  }

  lemma {:induction false} EveryRunIsTraced(s: System, actions: seq<Action>)
    requires Initial(s)
    ensures Traced(s, actions)
    decreases |actions|
  {
    hide Inv, Traced, Run;
    if actions == [] {
      StartIsTraced(s);
    } else {
      var n := |actions| - 1;
      var front, a := actions[..n], actions[n];
      assert actions == front + [a];
      EveryRunIsTraced(s, front);
      InitialIsSound(s);
      RunKeepsInv(s, front);
      if a.Act? && a.client in Run(s, front).clients {
        ActTraced(s, front, a.client, a.choice);
      } else {
        OtherTraced(s, front, a);
      }
    }
  }

  lemma StartIsTraced(s: System)
    requires Initial(s)
    ensures Traced(s, [])
  {
    hide Published;
  }

  // ----- Whole-run results -----

  /** In every run, whatever is readable in the shared index was readable at the start, or is exactly what the SCM
      answered some client that asked for that reference: its revision, and the digest and size of its bytes. */
  lemma PublishedWasAnswered(s: System, actions: seq<Action>, b: Bundle)
    requires Initial(s) && Published(Run(s, actions).records, b)
    ensures Published(s.records, b) || SuppliedToSomeone(s, actions, b)
  {
    hide Published, SuppliedToSomeone, OwnAnswer, Run;
    EveryRunIsTraced(s, actions);
  }

  /** A finished public resolution returns content that was published at the start, or that the SCM supplied. */
  lemma ResolvedWasAnswered(s: System, actions: seq<Action>, c: ClientId, r: Reference) returns (b: Bundle)
    requires Initial(s) && c in Run(s, actions).clients
    requires Run(s, actions).clients[c].phase.Resolved? && Run(s, actions).clients[c].phase.request == Some(r)
    ensures b.reference == r && Run(s, actions).clients[c].phase == Resolved(Some(r), b.archive, b.archive.digest.preimage)
    ensures Published(s.records, b) || SuppliedToSomeone(s, actions, b)
  {
    hide Published, SuppliedToSomeone, OwnAnswer, Run, Inv;
    InitialIsSound(s);
    RunKeepsInv(s, actions);
    b := ResolvedIsPublished(Run(s, actions), c, r);
    PublishedWasAnswered(s, actions, b);
  }

  /** A finished resolution of anything but a public exact commit returns what the SCM answered that client. */
  lemma PrivateIsOwnAnswer(s: System, actions: seq<Action>, c: ClientId) returns (resolved: GitObjectId)
    requires Initial(s) && c in Run(s, actions).clients
    requires Run(s, actions).clients[c].phase.Resolved? && Run(s, actions).clients[c].phase.request == None
    ensures var p := Run(s, actions).clients[c].phase;
            Describes(p.archive, p.bytes) && AnsweredTo(s, actions, c, None, resolved, p.bytes)
  {
    hide Published, SuppliedToSomeone, AnsweredTo, Run;
    EveryRunIsTraced(s, actions);
    var p := Run(s, actions).clients[c].phase;
    assert OwnAnswer(s, actions, c, p);
    resolved :| AnsweredTo(s, actions, c, None, resolved, p.bytes);
  }

  // ----- When a step fails -----

  predicate AtRest(phase: Phase)
  {
    phase.Idle? || phase.Resolved? || phase.Failed?
  }

  /** The blob store has other content under the key of these bytes. */
  predicate Collides(blobs: Blobs, bytes: seq<byte>)
  {
    ArchiveKey(Sha256(bytes)) in blobs && blobs[ArchiveKey(Sha256(bytes))] != bytes
  }

  /** What makes a resolution fail: a failing store or SCM, a record that cannot be read or says something else, and an
      answer that is not the archive of the commit that was asked for. A failing local index is not among them. */
  ghost predicate Fails(v: View, choice: Choice)
  {
    match v.phase
    case ReadingShared(r) => choice != Perform || SharedGet(v.records, r).Err?
    case LoadingArchive(_, b) => choice != Perform && !(choice.LocalArchive? && Verified(b.archive, choice.bytes))
    case Fetching(_) => !choice.Answer?
    case PublishingArchive(request, resolved, bytes) =>
      || choice != Perform || Collides(v.blobs, bytes)
      || (request.Some? && (resolved != request.value.revision || bytes == []))
    case PublishingShared(b, _) => choice != Perform || SharedGet(v.records, b.reference) !in {Ok(None), Ok(Some(b))}
    case _ => false
  }

  lemma PutLocalGoesOn(v: View, maximum: nat, b: Bundle, next: Phase, choice: Choice)
    requires maximum > 0 && ViewSound(v, maximum) && Published(v.records, b)
    ensures PutLocalStep(v, maximum, b, next, choice).phase == next
  {
    hide PhaseSound, NoDanglingReference, EntriesPublished, LocalPut, Published;
    PutLocalEntries(v.records, v.entries, maximum, b);
  }

  lemma LoadFails(blobs: Blobs, r: Reference, b: Bundle, choice: Choice)
    requires b.reference == r && Stored(blobs, b.archive)
    ensures LoadStep(blobs, r, b, choice).Failed? <==> choice != Perform && !(choice.LocalArchive? && Verified(b.archive, choice.bytes))
  {
  }

  lemma PublishArchiveFails(v: View, request: Option<Reference>, resolved: GitObjectId, bytes: seq<byte>, choice: Choice)
    ensures PublishArchiveStep(v, request, resolved, bytes, choice).phase.Failed? <==>
              || choice != Perform || Collides(v.blobs, bytes)
              || (request.Some? && (resolved != request.value.revision || bytes == []))
  {
  }

  lemma PublishSharedFails(v: View, b: Bundle, bytes: seq<byte>, choice: Choice)
    requires ValidBundle(b)
    ensures PublishSharedStep(v, b, bytes, choice).phase.Failed? <==>
              choice != Perform || SharedGet(v.records, b.reference) !in {Ok(None), Ok(Some(b))}
  {
    hide SharedGet, SharedPut, ValidBundle;
    SharedPutPublishes(v.records, b);
    SharedPutErrors(v.records, b);
  }

  /** A resolution in progress fails at a step exactly for one of these reasons. */
  lemma StepFailsExactly(v: View, maximum: nat, choice: Choice)
    requires maximum > 0 && ViewSound(v, maximum) && !AtRest(v.phase)
    ensures StepView(v, maximum, choice).phase.Failed? <==> Fails(v, choice)
  {
    hide SharedGet, PublishSharedStep, PublishArchiveStep, PutLocalStep, LoadStep, BeginStep, Collides, Verified, Stored;
    hide EntriesPublished, ValidBundle, ValidReference;
    match v.phase {
      case RepairingLocal(r, b) => PutLocalGoesOn(v, maximum, b, LoadingArchive(r, b), choice);
      case PublishingLocal(b, bytes) => PutLocalGoesOn(v, maximum, b, Resolved(Some(b.reference), b.archive, bytes), choice);
      case LoadingArchive(r, b) =>
        assert Published(v.records, b) && Stored(v.blobs, b.archive);
        LoadFails(v.blobs, r, b, choice);
      case PublishingArchive(request, resolved, bytes) => PublishArchiveFails(v, request, resolved, bytes, choice);
      case PublishingShared(b, bytes) => PublishSharedFails(v, b, bytes, choice);
      case _ =>
    }
  }

  lemma SharedPutErrors(records: Records, b: Bundle)
    ensures SharedPut(records, b).1.Err? ==> SharedPut(records, b).1 == Err(Conflict)
  {
  }

  /** What a failing step is reported as. */
  function Reason(phase: Phase, choice: Choice): Failure
  {
    match phase
    case Fetching(_) => if choice == Reject then ArchiveRejected else ScmFailed
    case LoadingArchive(_, _) => if choice == Reject then ArchiveRejected else BlobStoreFailed
    case PublishingArchive(_, _, _) => if choice == Perform then Internal else BlobStoreFailed
    case _ => ReferenceCacheFailed
  }

  /** A failing step leaves the local index alone. Its write may have taken effect, when the environment says so, and
      never overwrites anything. */
  lemma FailureExactly(v: View, maximum: nat, choice: Choice)
    requires maximum > 0 && ViewSound(v, maximum) && !AtRest(v.phase) && Fails(v, choice)
    ensures var w := StepView(v, maximum, choice);
            && w.entries == v.entries
            && (v.phase.PublishingArchive? && Collides(v.blobs, v.phase.bytes) ==> w.phase == Failed(BlobStoreFailed))
            && (!(v.phase.PublishingArchive? && Collides(v.blobs, v.phase.bytes)) ==> w.phase == Failed(Reason(v.phase, choice)))
            && (choice != Perform ==>
                  && w.records == (if choice == RefuseAfterWrite && v.phase.PublishingShared? then Recorded(v.records, v.phase.bundle) else v.records)
                  && w.blobs == (if choice == RefuseAfterWrite && v.phase.PublishingArchive? then Kept(v.blobs, v.phase.bytes) else v.blobs))
  {
    hide EntriesPublished, ValidReference, LocalPut, PhaseSound, NoDanglingReference;
    match v.phase {
      case PublishingShared(b, bytes) =>
        PublishingIsSound(v, maximum, b, bytes);
        SharedFailure(v, b, bytes, choice);
      case LoadingArchive(r, b) =>
        LoadingIsSound(v, maximum, r, b);
        hide SharedGet, StepView;
        LoadFailure(v.blobs, r, b, choice);
        StepOfLoading(v, maximum, r, b, choice);
      case PublishingArchive(request, resolved, bytes) => ArchiveFailure(v, request, resolved, bytes, choice);
      case _ =>
    }
  }

  function Recorded(records: Records, b: Bundle): Records
  {
    if SharedReferenceKey(b.reference) in records then records else records[SharedReferenceKey(b.reference) := FromBundle(b)]
  }

  function Kept(blobs: Blobs, bytes: seq<byte>): Blobs
  {
    if ArchiveKey(Sha256(bytes)) in blobs then blobs else blobs[ArchiveKey(Sha256(bytes)) := bytes]
  }

  lemma LoadingIsSound(v: View, maximum: nat, r: Reference, b: Bundle)
    requires ViewSound(v, maximum) && v.phase == LoadingArchive(r, b)
    ensures b.reference == r && Stored(v.blobs, b.archive)
  {
    hide SharedGet, EntriesPublished;
    assert Published(v.records, b);
  }

  lemma StepOfLoading(v: View, maximum: nat, r: Reference, b: Bundle, choice: Choice)
    requires maximum > 0 && v.phase == LoadingArchive(r, b)
    ensures StepView(v, maximum, choice) == v.(phase := LoadStep(v.blobs, r, b, choice))
  {
    hide LoadStep;
  }

  lemma LoadFailure(blobs: Blobs, r: Reference, b: Bundle, choice: Choice)
    requires b.reference == r && choice != Perform && !(choice.LocalArchive? && Verified(b.archive, choice.bytes))
    ensures LoadStep(blobs, r, b, choice) == Failed(if choice == Reject then ArchiveRejected else BlobStoreFailed)
  {
  }

  lemma SharedFailure(v: View, b: Bundle, bytes: seq<byte>, choice: Choice)
    requires v.phase == PublishingShared(b, bytes) && ValidBundle(b) && Fails(v, choice)
    ensures var w := PublishSharedStep(v, b, bytes, choice);
            && w.entries == v.entries && w.blobs == v.blobs && w.phase == Failed(ReferenceCacheFailed)
            && (choice != Perform ==> w.records == if choice == RefuseAfterWrite then Recorded(v.records, b) else v.records)
  {
    hide SharedReferenceKey;
    if SharedReferenceKey(b.reference) in v.records && v.records[SharedReferenceKey(b.reference)] == FromBundle(b) {
      DocumentRoundTrip(b, FromBundle(b));
    }
  }

  lemma PublishingIsSound(v: View, maximum: nat, b: Bundle, bytes: seq<byte>)
    requires ViewSound(v, maximum) && v.phase == PublishingShared(b, bytes)
    ensures ValidBundle(b)
  {
    hide ValidBundle, EntriesPublished, NoDanglingReference;
  }

  lemma ArchiveFailure(v: View, request: Option<Reference>, resolved: GitObjectId, bytes: seq<byte>, choice: Choice)
    requires v.phase == PublishingArchive(request, resolved, bytes) && Fails(v, choice)
    ensures var w := PublishArchiveStep(v, request, resolved, bytes, choice);
            && w.entries == v.entries && w.records == v.records
            && w.phase == Failed(if choice == Perform && !Collides(v.blobs, bytes) then Internal else BlobStoreFailed)
            && (choice != Perform ==> w.blobs == if choice == RefuseAfterWrite then Kept(v.blobs, bytes) else v.blobs)
  {
  }

  /** Steps that meet something the invariant rules out are refused too. */
  lemma MismatchesAreRefused(v: View, maximum: nat, r: Reference, b: Bundle, next: Phase, choice: Choice)
    requires maximum > 0
    ensures b.reference != r ==> LoadStep(v.blobs, r, b, choice) == Failed(ReferenceCacheFailed)
    ensures b.reference in v.entries && v.entries[b.reference] != b ==>
              PutLocalStep(v, maximum, b, next, Perform) == v.(phase := Failed(LocalConflict))
    ensures choice != Perform ==> PutLocalStep(v, maximum, b, next, choice) == v.(phase := next)
  {
  }

  /** A cancellation ends that client's resolution and nothing else; a restart empties that replica's index and nothing
      else. */
  lemma CancelAndRestart(s: System, c: ClientId, i: ReplicaId)
    requires WellFormed(s)
    ensures c in s.clients ==>
              Step(s, Cancel(c)) == s.(clients := s.clients[c := Client(s.clients[c].replica, Failed(Cancelled))])
    ensures i in s.replicas ==>
              Step(s, RestartReplica(i)) == s.(replicas := s.replicas[i := Replica(s.replicas[i].maximum, map[])])
  {
  }

  /** Any replicas with positive bounds and any clients on them are a start, with empty stores. */
  lemma EmptyStart(bounds: map<ReplicaId, nat>, homes: map<ClientId, ReplicaId>)
    requires (forall i :: i in bounds ==> bounds[i] > 0) && forall c :: c in homes ==> homes[c] in bounds
    ensures Initial(System(map[], map[], map i | i in bounds :: Replica(bounds[i], map[]), map c | c in homes :: Client(homes[c], Idle)))
  {
  }

  /** The SCM is asked for a public commit exactly when the shared index has no record for it. */
  lemma AsksExactlyOnMiss(v: View, maximum: nat, choice: Choice, r: Reference)
    requires maximum > 0
    ensures StepView(v, maximum, choice).phase == Fetching(Some(r)) <==>
              v.phase == ReadingShared(r) && choice == Perform && SharedGet(v.records, r) == Ok(None)
  {
    hide SharedGet, LocalPut, Stored, ValidReference, SharedPut, ArchivePut;
  }

  // ----- Undisturbed resolutions -----

  ghost function Views(v: View, maximum: nat, choices: seq<Choice>): View
    requires maximum > 0
    decreases |choices|
  {
    if choices == [] then v else Views(StepView(v, maximum, choices[0]), maximum, choices[1..])
  }

  /** One client's steps in a row. */
  function Solo(c: ClientId, choices: seq<Choice>): (actions: seq<Action>)
    ensures |actions| == |choices| && forall i :: 0 <= i < |choices| ==> actions[i] == Act(c, choices[i])
  {
    seq(|choices|, i requires 0 <= i < |choices| => Act(c, choices[i]))
  }

  /** They touch that client, its replica and the shared stores only. */
  lemma {:induction false} SoloRun(s: System, c: ClientId, choices: seq<Choice>)
    requires WellFormed(s) && c in s.clients
    ensures Run(s, Solo(c, choices)) ==
              WithView(s, c, Views(ViewOf(s, c), s.replicas[s.clients[c].replica].maximum, choices))
    decreases |choices|
  {
    hide StepView;
    var maximum := s.replicas[s.clients[c].replica].maximum;
    if choices == [] {
      assert WithView(s, c, ViewOf(s, c)) == s;
    } else {
      var t := Step(s, Act(c, choices[0]));
      assert Solo(c, choices)[1..] == Solo(c, choices[1..]);
      SoloRun(t, c, choices[1..]);
      WithViewTwice(s, c, StepView(ViewOf(s, c), maximum, choices[0]), Views(ViewOf(s, c), maximum, choices));
    }
  }

  lemma WithViewTwice(s: System, c: ClientId, v: View, w: View)
    requires WellFormed(s) && c in s.clients
    ensures var t := WithView(s, c, v);
            && WellFormed(t) && c in t.clients && ViewOf(t, c) == v && WithView(t, c, w) == WithView(s, c, w)
            && t.clients[c].replica == s.clients[c].replica
            && t.replicas[s.clients[c].replica].maximum == s.replicas[s.clients[c].replica].maximum
  {
  }

  lemma SoloEnds(s: System, c: ClientId, choices: seq<Choice>)
    requires WellFormed(s) && Inv(s) && c in s.clients
    ensures var i := s.clients[c].replica;
            var t, w := Run(s, Solo(c, choices)), Views(ViewOf(s, c), s.replicas[i].maximum, choices);
            && t.records == w.records && t.blobs == w.blobs && t.clients == s.clients[c := Client(i, w.phase)]
            && i in t.replicas && t.replicas[i].entries == w.entries && ViewSound(ViewOf(s, c), s.replicas[i].maximum)
  {
    hide Views, Run, ViewSound, Solo, Inv;
    ViewIsSound(s, c);
    SoloRun(s, c, choices);
  }

  predicate HeldBy(s: System, i: ReplicaId, b: Bundle)
  {
    i in s.replicas && b.reference in s.replicas[i].entries && s.replicas[i].entries[b.reference] == b
  }

  lemma ViewsCons(v: View, maximum: nat, choice: Choice, rest: seq<Choice>)
    requires maximum > 0
    ensures Views(v, maximum, [choice] + rest) == Views(StepView(v, maximum, choice), maximum, rest)
    ensures Views(v, maximum, []) == v
  {
    hide StepView;
    assert ([choice] + rest)[1..] == rest;
  }

  lemma Views3(v: View, maximum: nat, a: Choice, b: Choice, c: Choice, rest: seq<Choice>)
    requires maximum > 0
    ensures Views(v, maximum, [a, b, c] + rest) ==
              Views(StepView(StepView(StepView(v, maximum, a), maximum, b), maximum, c), maximum, rest)
  {
    hide StepView, Views;
    assert [a, b, c] + rest == [a] + ([b] + ([c] + rest));
    ViewsCons(v, maximum, a, [b] + ([c] + rest));
    ViewsCons(StepView(v, maximum, a), maximum, b, [c] + rest);
    ViewsCons(StepView(StepView(v, maximum, a), maximum, b), maximum, c, rest);
  }

  /** A lookup that misses locally and in the shared index asks the SCM. */
  lemma MissFetches(v: View, maximum: nat, r: Reference)
    requires maximum > 0 && AtRest(v.phase) && ValidReference(r) && r !in v.entries && SharedGet(v.records, r) == Ok(None)
    ensures StepView(StepView(StepView(v, maximum, Begin(Some(r))), maximum, Perform), maximum, Perform) == v.(phase := Fetching(Some(r)))
  {
    hide ValidReference, SharedGet;
  }

  function BundleOf(r: Reference, bytes: seq<byte>): Bundle
  {
    Bundle(r, r.revision, BlobDescriptor(ArchiveKey(Sha256(bytes)), Sha256(bytes), |bytes|, "application/gzip"))
  }

  /** The archive of an answer is stored, and its bundle is what is then published. */
  lemma AnswerIsStored(v: View, maximum: nat, r: Reference, bytes: seq<byte>)
    requires maximum > 0 && v.phase == Fetching(Some(r)) && bytes != [] && !Collides(v.blobs, bytes)
    ensures StepView(StepView(v, maximum, Answer(r.revision, bytes)), maximum, Perform) ==
              v.(blobs := v.blobs[ArchiveKey(Sha256(bytes)) := bytes], phase := PublishingShared(BundleOf(r, bytes), bytes))
  {
    if ArchiveKey(Sha256(bytes)) in v.blobs {
      assert v.blobs[ArchiveKey(Sha256(bytes)) := bytes] == v.blobs;
    }
  }

  /** The bundle is published in the shared index and, unless that fails, in the local one, and the resolution ends. */
  lemma BundleIsPublished(v: View, maximum: nat, b: Bundle, bytes: seq<byte>, put: Choice)
    requires maximum > 0 && ViewSound(v, maximum) && v.phase == PublishingShared(b, bytes) && SharedGet(v.records, b.reference) == Ok(None)
    ensures var w := StepView(StepView(v, maximum, Perform), maximum, put);
            && Published(w.records, b) && w.blobs == v.blobs && w.phase == Resolved(Some(b.reference), b.archive, bytes)
            && (put == Perform ==> b.reference in w.entries && w.entries[b.reference] == b)
  {
    hide SharedGet, LocalPut, ValidReference, Evicted, SharedPut, EntriesPublished, NoDanglingReference, Stored;
    StepViewSound(v, maximum, Perform);
    SharedPutPublishes(v.records, b);
    SharedPutErrors(v.records, b);
    var u := StepView(v, maximum, Perform);
    assert u.phase == PublishingLocal(b, bytes) && Published(u.records, b);
    PutLocalEntries(u.records, u.entries, maximum, b);
    LocalPutProperties(u.entries, maximum, b);
  }

  /** The whole path of a miss, seen by its client. */
  lemma MissResolves(v: View, maximum: nat, r: Reference, bytes: seq<byte>, put: Choice)
    requires maximum > 0 && ViewSound(v, maximum) && AtRest(v.phase) && ValidReference(r)
    requires r !in v.entries && SharedGet(v.records, r) == Ok(None) && bytes != [] && !Collides(v.blobs, bytes)
    ensures var b, w := BundleOf(r, bytes),
                        Views(v, maximum, [Begin(Some(r)), Perform, Perform, Answer(r.revision, bytes), Perform, Perform, put]);
            && w.phase == Resolved(Some(r), b.archive, bytes) && Published(w.records, b)
            && w.blobs == v.blobs[ArchiveKey(Sha256(bytes)) := bytes]
            && (put == Perform ==> r in w.entries && w.entries[r] == b)
  {
    hide StepView, Views, SharedGet, ValidReference, Published, Collides, ViewSound;
    var answer, b := Answer(r.revision, bytes), BundleOf(r, bytes);
    var u := v.(phase := Fetching(Some(r)));
    var w := v.(blobs := v.blobs[ArchiveKey(Sha256(bytes)) := bytes], phase := PublishingShared(b, bytes));
    assert [Begin(Some(r)), Perform, Perform, answer, Perform, Perform, put]
           == [Begin(Some(r)), Perform, Perform] + ([answer, Perform, Perform] + ([put] + []));
    Views3(v, maximum, Begin(Some(r)), Perform, Perform, [answer, Perform, Perform] + ([put] + []));
    MissFetches(v, maximum, r);
    Views3(u, maximum, answer, Perform, Perform, [put] + []);
    AnswerIsStored(u, maximum, r, bytes);
    ViewsCons(StepView(w, maximum, Perform), maximum, put, []);
    ViewsEnd(StepView(StepView(w, maximum, Perform), maximum, put), maximum);
    PhaseSoundFetching(v, r);
    PhaseChangeSound(v, maximum, Fetching(Some(r)));
    StepViewSound(u, maximum, answer);
    StepViewSound(StepView(u, maximum, answer), maximum, Perform);
    BundleIsPublished(w, maximum, b, bytes, put);
  }

  /** A reference that nobody has resolved: with no failing choice, the SCM's answer for its commit is stored, published
      and returned. */
  lemma FreshResolution(s: System, c: ClientId, r: Reference, bytes: seq<byte>, put: Choice)
    requires WellFormed(s) && Inv(s) && c in s.clients && AtRest(s.clients[c].phase) && ValidReference(r)
    requires r !in s.replicas[s.clients[c].replica].entries && SharedGet(s.records, r) == Ok(None)
    requires bytes != [] && !Collides(s.blobs, bytes)
    ensures var t := Run(s, Solo(c, [Begin(Some(r)), Perform, Perform, Answer(r.revision, bytes), Perform, Perform, put]));
            var b := BundleOf(r, bytes);
            && t.clients == s.clients[c := Client(s.clients[c].replica, Resolved(Some(r), b.archive, bytes))]
            && Published(t.records, b) && t.blobs == s.blobs[ArchiveKey(Sha256(bytes)) := bytes]
            && (put == Perform ==> HeldBy(t, s.clients[c].replica, b))
  {
    hide Views, Run, SharedGet, ValidReference, Published, Collides, ViewSound, Solo, Inv;
    SoloEnds(s, c, [Begin(Some(r)), Perform, Perform, Answer(r.revision, bytes), Perform, Perform, put]);
    MissResolves(ViewOf(s, c), s.replicas[s.clients[c].replica].maximum, r, bytes, put);
  }

  lemma PhaseSoundFetching(v: View, r: Reference)
    requires ValidReference(r)
    ensures PhaseSound(v.records, v.blobs, Fetching(Some(r)))
  {
    hide ValidReference;
  }

  lemma ViewIsSound(s: System, c: ClientId)
    requires Inv(s) && c in s.clients
    ensures ViewSound(ViewOf(s, c), s.replicas[s.clients[c].replica].maximum)
  {
    hide PhaseSound, EntriesPublished, NoDanglingReference;
  }

  lemma HitResolves(v: View, maximum: nat, r: Reference, b: Bundle, put: Choice)
    requires maximum > 0 && ViewSound(v, maximum) && AtRest(v.phase) && ValidReference(r)
    requires r !in v.entries && Published(v.records, b) && b.reference == r
    ensures var w := Views(v, maximum, [Begin(Some(r)), Perform, Perform, put, Perform]);
            && w.records == v.records && w.blobs == v.blobs
            && w.phase == Resolved(Some(r), b.archive, b.archive.digest.preimage)
            && (put == Perform ==> r in w.entries && w.entries[r] == b)
  {
    hide StepView, Views, SharedGet, ValidReference, ViewSound;
    var u := v.(phase := RepairingLocal(r, b));
    assert [Begin(Some(r)), Perform, Perform, put, Perform] == [Begin(Some(r)), Perform, Perform] + ([put] + ([Perform] + []));
    Views3(v, maximum, Begin(Some(r)), Perform, Perform, [put] + ([Perform] + []));
    HitRepairs(v, maximum, r, b);
    ViewsCons(u, maximum, put, [Perform] + []);
    ViewsCons(StepView(u, maximum, put), maximum, Perform, []);
    ViewsEnd(StepView(StepView(u, maximum, put), maximum, Perform), maximum);
    RepairLoads(v, maximum, r, b, put);
  }

  /** A reference that some replica published: its archive is returned without asking the SCM, and nothing shared
      changes. */
  lemma SharedHit(s: System, c: ClientId, r: Reference, b: Bundle, put: Choice)
    requires WellFormed(s) && Inv(s) && c in s.clients && AtRest(s.clients[c].phase) && ValidReference(r)
    requires r !in s.replicas[s.clients[c].replica].entries && Published(s.records, b) && b.reference == r
    ensures var t := Run(s, Solo(c, [Begin(Some(r)), Perform, Perform, put, Perform]));
            && t.clients == s.clients[c := Client(s.clients[c].replica, Resolved(Some(r), b.archive, b.archive.digest.preimage))]
            && t.records == s.records && t.blobs == s.blobs
            && (put == Perform ==> HeldBy(t, s.clients[c].replica, b))
  {
    hide Views, Run, Published, ValidReference, ViewSound, Solo, Inv;
    SoloEnds(s, c, [Begin(Some(r)), Perform, Perform, put, Perform]);
    HitResolves(ViewOf(s, c), s.replicas[s.clients[c].replica].maximum, r, b, put);
  }

  lemma HitRepairs(v: View, maximum: nat, r: Reference, b: Bundle)
    requires maximum > 0 && AtRest(v.phase) && ValidReference(r) && r !in v.entries && SharedGet(v.records, r) == Ok(Some(b))
    ensures StepView(StepView(StepView(v, maximum, Begin(Some(r))), maximum, Perform), maximum, Perform) == v.(phase := RepairingLocal(r, b))
  {
    hide ValidReference, SharedGet;
  }

  lemma RepairLoads(v: View, maximum: nat, r: Reference, b: Bundle, put: Choice)
    requires maximum > 0 && ViewSound(v, maximum) && b.reference == r && Published(v.records, b)
    ensures var w := StepView(StepView(v.(phase := RepairingLocal(r, b)), maximum, put), maximum, Perform);
            && w.records == v.records && w.blobs == v.blobs
            && w.phase == Resolved(Some(r), b.archive, b.archive.digest.preimage)
            && (put == Perform ==> r in w.entries && w.entries[r] == b)
  {
    hide SharedGet, LocalPut, PhaseSound, EntriesPublished, ReadLocalStep, ReadSharedStep, PublishSharedStep, PublishArchiveStep, BeginStep;
    PutLocalEntries(v.records, v.entries, maximum, b);
    LocalPutProperties(v.entries, maximum, b);
    assert Stored(v.blobs, b.archive);
    hide NoDanglingReference;
  }

  /** A reference in the local index: its archive is returned without asking the shared index. */
  lemma LocalHit(s: System, c: ClientId, r: Reference)
    requires WellFormed(s) && Inv(s) && c in s.clients && AtRest(s.clients[c].phase) && ValidReference(r)
    requires r in s.replicas[s.clients[c].replica].entries
    ensures var b := s.replicas[s.clients[c].replica].entries[r];
            Run(s, Solo(c, [Begin(Some(r)), Perform, Perform])) ==
              s.(clients := s.clients[c := Client(s.clients[c].replica, Resolved(Some(r), b.archive, b.archive.digest.preimage))])
  {
    hide StepView, Views, Run, SharedGet, ValidReference, NoDanglingReference, EntriesPublished, PhaseSound;
    var v, maximum := ViewOf(s, c), s.replicas[s.clients[c].replica].maximum;
    SoloRun(s, c, [Begin(Some(r)), Perform, Perform]);
    assert [Begin(Some(r)), Perform, Perform] == [Begin(Some(r)), Perform, Perform] + [];
    Views3(v, maximum, Begin(Some(r)), Perform, Perform, []);
    ViewsCons(v, maximum, Perform, []);
    ViewIsSound(s, c);
    LocalLoads(v, maximum, r);
    ViewsEnd(StepView(StepView(StepView(v, maximum, Begin(Some(r))), maximum, Perform), maximum, Perform), maximum);
    SamePhaseOnly(s, c, Resolved(Some(r), v.entries[r].archive, v.entries[r].archive.digest.preimage));
  }

  lemma ViewsEnd(v: View, maximum: nat)
    requires maximum > 0
    ensures Views(v, maximum, []) == v
  {
  }

  lemma SamePhaseOnly(s: System, c: ClientId, phase: Phase)
    requires WellFormed(s) && c in s.clients
    ensures WithView(s, c, ViewOf(s, c).(phase := phase)) == s.(clients := s.clients[c := Client(s.clients[c].replica, phase)])
  {
    var i := s.clients[c].replica;
    assert s.replicas[i := s.replicas[i].(entries := s.replicas[i].entries)] == s.replicas;
  }

  lemma LocalLoads(v: View, maximum: nat, r: Reference)
    requires maximum > 0 && ViewSound(v, maximum) && AtRest(v.phase) && ValidReference(r) && r in v.entries
    ensures var b := v.entries[r];
            StepView(StepView(StepView(v, maximum, Begin(Some(r))), maximum, Perform), maximum, Perform)
            == v.(phase := Resolved(Some(r), b.archive, b.archive.digest.preimage))
  {
    hide SharedGet, ValidReference;
    assert Published(v.records, v.entries[r]) && Stored(v.blobs, v.entries[r].archive);
  }

  /** Anything but a public exact commit: the SCM's answer is stored and returned, and no index changes. */
  lemma PrivateResolution(s: System, c: ClientId, resolved: GitObjectId, bytes: seq<byte>)
    requires WellFormed(s) && Inv(s) && c in s.clients && AtRest(s.clients[c].phase) && !Collides(s.blobs, bytes)
    ensures Run(s, Solo(c, [Begin(None), Answer(resolved, bytes), Perform])) ==
              s.(blobs := s.blobs[ArchiveKey(Sha256(bytes)) := bytes],
                 clients := s.clients[c := Client(s.clients[c].replica,
                   Resolved(None, BlobDescriptor(ArchiveKey(Sha256(bytes)), Sha256(bytes), |bytes|, "application/gzip"), bytes))])
  {
    hide StepView, Views, Run, NoDanglingReference, EntriesPublished, PhaseSound;
    var v, maximum := ViewOf(s, c), s.replicas[s.clients[c].replica].maximum;
    SoloRun(s, c, [Begin(None), Answer(resolved, bytes), Perform]);
    assert [Begin(None), Answer(resolved, bytes), Perform] == [Begin(None), Answer(resolved, bytes), Perform] + [];
    Views3(v, maximum, Begin(None), Answer(resolved, bytes), Perform, []);
    var phase := Resolved(None, BlobDescriptor(ArchiveKey(Sha256(bytes)), Sha256(bytes), |bytes|, "application/gzip"), bytes);
    PrivateStores(v, maximum, resolved, bytes);
    ViewsEnd(v.(blobs := v.blobs[ArchiveKey(Sha256(bytes)) := bytes], phase := phase), maximum);
    var i := s.clients[c].replica;
    assert s.replicas[i := s.replicas[i].(entries := s.replicas[i].entries)] == s.replicas;
  }

  lemma PrivateStores(v: View, maximum: nat, resolved: GitObjectId, bytes: seq<byte>)
    requires maximum > 0 && AtRest(v.phase) && !Collides(v.blobs, bytes)
    ensures StepView(StepView(StepView(v, maximum, Begin(None)), maximum, Answer(resolved, bytes)), maximum, Perform) ==
              v.(blobs := v.blobs[ArchiveKey(Sha256(bytes)) := bytes],
                 phase := Resolved(None, BlobDescriptor(ArchiveKey(Sha256(bytes)), Sha256(bytes), |bytes|, "application/gzip"), bytes))
  {
    if ArchiveKey(Sha256(bytes)) in v.blobs {
      assert v.blobs[ArchiveKey(Sha256(bytes)) := bytes] == v.blobs;
    }
  }
}

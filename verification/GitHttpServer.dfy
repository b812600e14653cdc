/** Who stops a Git backend: the lock-protected protocol of `BoundedGitHttpServer`
    (scripts/dev/git-http-server.py), first each locked section, then every interleaving of request
    handlers, deadline workers, the accept loop, signals and shutdown. */
module GitHttpServer {

  import opened Text

  type Request = nat
  type Backend = nat

  const MAX_CONCURRENT_REQUESTS: nat := 8

  datatype ActiveRequest = ActiveRequest(backend: Option<Backend>, expired: bool)

  /** What the lifecycle lock protects. The signal handler sets `shutdownRequested` without the lock. */
  datatype Server = Server(accepting: bool, shutdownRequested: bool, active: map<Request, ActiveRequest>)

  // ----- The locked sections -----

  /** `_register_request`; `signalled` says a signal arrives between the two reads of the flag. */
  function RegisterRequest(s: Server, r: Request, signalled: bool): (Server, bool)
  {
    if s.shutdownRequested || !s.accepting then (s, false)
    else if signalled then (s.(shutdownRequested := true, active := s.active - {r}), false)
    else (s.(active := s.active[r := ActiveRequest(None, false)]), true)
  }

  /** `register_backend`; `overdue` says the deadline has passed. */
  function RegisterBackend(s: Server, r: Request, b: Backend, signalled: bool, overdue: bool): (Server, bool)
  {
    if s.shutdownRequested || !s.accepting || r !in s.active || s.active[r].expired || s.active[r].backend.Some? then (s, false)
    else if signalled || overdue then
      (s.(shutdownRequested := signalled, active := s.active[r := ActiveRequest(None, true)]), false)
    else (s.(active := s.active[r := ActiveRequest(Some(b), false)]), true)
  }

  /** `release_backend`: the caller owns the cleanup exactly when it still finds its backend. */
  function ReleaseBackend(s: Server, r: Request, b: Backend): (Server, bool)
  {
    if r in s.active && s.active[r].backend == Some(b) then
      (s.(active := s.active[r := s.active[r].(backend := None)]), true)
    else (s, false)
  }

  /** `request_expired`. */
  function RequestExpired(s: Server, r: Request, overdue: bool): (Server, bool)
  {
    if r !in s.active then (s, true)
    else (s.(active := s.active[r := s.active[r].(expired := s.active[r].expired || overdue)]), s.active[r].expired || overdue)
  }

  /** `_expire_request`: the backend to stop, if one was held. */
  function ExpireRequest(s: Server, r: Request): (Server, Option<Backend>)
  {
    if r !in s.active || s.active[r].expired then (s, None)
    else (s.(active := s.active[r := ActiveRequest(None, true)]), s.active[r].backend)
  }

  function CompleteRequest(s: Server, r: Request): Server
  {
    s.(active := s.active - {r})
  }

  function BeginShutdown(s: Server): Server
  {
    s.(shutdownRequested := true, accepting := false)
  }

  function AbortRequests(s: Server): Server
  {
    s.(accepting := false, active := map r | r in s.active :: ActiveRequest(None, true))
  }

  predicate Holds(active: map<Request, ActiveRequest>, b: Backend)
  {
    exists r :: r in active && active[r].backend == Some(b)
  }

  /** The held backends, each once, in some order. */
  ghost predicate Lists(bs: seq<Backend>, active: map<Request, ActiveRequest>)
  {
    NoRepeats(bs) && forall b :: b in bs <==> Holds(active, b)
  }

  predicate OneHolder(active: map<Request, ActiveRequest>)
  {
    forall q, r :: q in active && r in active && active[q].backend.Some? && active[q].backend == active[r].backend ==> q == r
  }

  /** An open server in which request `r` is active, unexpired and without a backend. */
  predicate Awaits(s: Server, r: Request)
  {
    s.accepting && !s.shutdownRequested && r in s.active && s.active[r] == ActiveRequest(None, false)
  }

  class BoundedGitHttpServer {
    var accepting: bool
    var shutdownRequested: bool
    var active: map<Request, ActiveRequest>

    function Value(): Server
      reads this
    {
      Server(accepting, shutdownRequested, active)
    }

    constructor ()
      ensures Value() == Server(true, false, map[])
    {
      accepting, shutdownRequested, active := true, false, map[];
    }

    method AddRequest(r: Request, signalled: bool) returns (ok: bool)
      modifies this
      ensures (Value(), ok) == RegisterRequest(old(Value()), r, signalled)
      ensures ok <==> old(accepting) && !old(shutdownRequested) && !signalled
      ensures ok ==> active == old(active)[r := ActiveRequest(None, false)]
      ensures !ok && r !in old(active) ==> active == old(active)
      ensures accepting == old(accepting)
      ensures shutdownRequested == (old(shutdownRequested) || (signalled && old(accepting)))
    {
      if shutdownRequested || !accepting {
        return false;
      }
      active := active[r := ActiveRequest(None, false)];
      if signalled {
        shutdownRequested := true;
      }
      if shutdownRequested {
        active := active - {r};
        assert active == old(active) - {r};
        assert r !in old(active) ==> active == old(active);
        return false;
      }
      return true;
    }

    method AddBackend(r: Request, b: Backend, signalled: bool, overdue: bool) returns (ok: bool)
      modifies this
      ensures (Value(), ok) == RegisterBackend(old(Value()), r, b, signalled, overdue)
      ensures ok <==> Awaits(old(Value()), r) && !signalled && !overdue
      ensures ok ==> active == old(active)[r := ActiveRequest(Some(b), false)]
      ensures Awaits(old(Value()), r) && !ok ==> active == old(active)[r := ActiveRequest(None, true)]
      ensures !Awaits(old(Value()), r) ==> active == old(active)
      ensures shutdownRequested == (old(shutdownRequested) || (Awaits(old(Value()), r) && signalled))
      ensures accepting == old(accepting)
    {
      if shutdownRequested || !accepting || r !in active || active[r].expired || active[r].backend.Some? {
        return false;
      }
      active := active[r := active[r].(backend := Some(b))];
      if signalled {
        shutdownRequested := true;
      }
      if shutdownRequested || active[r].expired || overdue {
        active := active[r := active[r].(backend := None)];
        active := active[r := active[r].(expired := true)];
        assert active == old(active)[r := ActiveRequest(None, true)];
        return false;
      }
      return true;
    }

    method TakeBackend(r: Request, b: Backend) returns (ownsCleanup: bool)
      modifies this
      ensures (Value(), ownsCleanup) == ReleaseBackend(old(Value()), r, b)
      ensures ownsCleanup <==> r in old(active) && old(active)[r].backend == Some(b)
      ensures ownsCleanup ==> active == old(active)[r := ActiveRequest(None, old(active)[r].expired)]
      ensures !ownsCleanup ==> active == old(active)
      ensures accepting == old(accepting) && shutdownRequested == old(shutdownRequested)
    {
      ownsCleanup := false;
      if r in active && active[r].backend == Some(b) {
        active := active[r := active[r].(backend := None)];
        assert active == old(active)[r := ActiveRequest(None, old(active)[r].expired)];
        ownsCleanup := true;
      }
    }

    method CheckExpired(r: Request, overdue: bool) returns (expired: bool)
      modifies this
      ensures (Value(), expired) == RequestExpired(old(Value()), r, overdue)
      ensures expired <==> r !in old(active) || old(active)[r].expired || overdue
      ensures active == if r in old(active) then old(active)[r := ActiveRequest(old(active)[r].backend, expired)] else old(active)
      ensures accepting == old(accepting) && shutdownRequested == old(shutdownRequested)
    {
      if r !in active {
        return true;
      }
      if !active[r].expired && overdue {
        active := active[r := active[r].(expired := true)];
      }
      assert active == old(active)[r := ActiveRequest(old(active)[r].backend, active[r].expired)];
      return active[r].expired;
    }

    method Expire(r: Request) returns (backend: Option<Backend>)
      modifies this
      ensures (Value(), backend) == ExpireRequest(old(Value()), r)
      ensures r in old(active) && !old(active)[r].expired ==>
                backend == old(active)[r].backend && active == old(active)[r := ActiveRequest(None, true)]
      ensures r !in old(active) || old(active)[r].expired ==> backend == None && active == old(active)
      ensures accepting == old(accepting) && shutdownRequested == old(shutdownRequested)
    {
      backend := None;
      if r !in active || active[r].expired {
        return;
      }
      active := active[r := active[r].(expired := true)];
      backend := active[r].backend;
      active := active[r := active[r].(backend := None)];
      assert active == old(active)[r := ActiveRequest(None, true)];
    }

    method Complete(r: Request)
      modifies this
      ensures Value() == CompleteRequest(old(Value()), r)
      ensures active.Keys == old(active).Keys - {r} && forall q :: q in active ==> active[q] == old(active)[q]
      ensures accepting == old(accepting) && shutdownRequested == old(shutdownRequested)
    {
      active := active - {r};
    }

    method Shutdown() returns (first: bool)
      modifies this
      ensures Value() == BeginShutdown(old(Value())) && first == !old(shutdownRequested)
      ensures shutdownRequested && !accepting && active == old(active)
    {
      first := !shutdownRequested;
      shutdownRequested := true;
      accepting := false;
    }

    /** `abort_active_requests` up to the end of its locked loop. */
    method Abort() returns (backends: seq<Backend>)
      modifies this
      ensures Value() == AbortRequests(old(Value()))
      ensures active.Keys == old(active).Keys && forall r :: r in active ==> active[r] == ActiveRequest(None, true)
      ensures !accepting && shutdownRequested == old(shutdownRequested)
      ensures forall b: Backend :: b in backends <==> Holds(old(active), b)
      ensures OneHolder(old(active)) ==> Lists(backends, old(active))
    {
      hide Listed, OneHolder, Lists, Holds;
      accepting := false;
      backends := [];
      var rest, before := active.Keys, active;
      ListedNone(before);
      while rest != {}
        invariant active.Keys == before.Keys && rest <= before.Keys && !accepting
        invariant shutdownRequested == old(shutdownRequested)
        invariant forall r :: r in active ==> active[r] == if r in rest then before[r] else ActiveRequest(None, true)
        invariant Listed(backends, before, rest)
        decreases |rest|
      {
        var r :| r in rest;
        ListedStep(backends, before, rest, r);
        active := active[r := active[r].(expired := true)];
        if active[r].backend.Some? {
          backends := backends + [active[r].backend.value];
          active := active[r := active[r].(backend := None)];
        }
        rest := rest - {r};
      }
      ListedAll(backends, before);
    }
  }

  /** The backends that requests outside `rest` hold. */
  ghost predicate HeldOutside(active: map<Request, ActiveRequest>, rest: set<Request>, b: Backend)
  {
    exists r :: r in active && r !in rest && active[r].backend == Some(b)
  }

  ghost predicate Listed(bs: seq<Backend>, active: map<Request, ActiveRequest>, rest: set<Request>)
  {
    (forall b: Backend :: b in bs <==> HeldOutside(active, rest, b)) && (OneHolder(active) ==> NoRepeats(bs))
  }

  lemma ListedNone(active: map<Request, ActiveRequest>)
    ensures Listed([], active, active.Keys)
  {
  }

  lemma ListedStep(bs: seq<Backend>, active: map<Request, ActiveRequest>, rest: set<Request>, r: Request)
    requires Listed(bs, active, rest) && r in rest && r in active
    ensures Listed(if active[r].backend.Some? then bs + [active[r].backend.value] else bs, active, rest - {r})
  {
    hide NoRepeats;
    if active[r].backend.Some? {
      var b := active[r].backend.value;
      assert HeldOutside(active, rest - {r}, b);
      AppendNew(bs, b);
    }
    forall c: Backend
      ensures HeldOutside(active, rest - {r}, c) <==> HeldOutside(active, rest, c) || active[r].backend == Some(c)
    {
      if HeldOutside(active, rest, c) {
        var q :| q in active && q !in rest && active[q].backend == Some(c);
        assert q !in rest - {r};
      }
    }
  }

  lemma ListedAll(bs: seq<Backend>, active: map<Request, ActiveRequest>)
    requires Listed(bs, active, {})
    ensures forall b: Backend :: b in bs <==> Holds(active, b)
    ensures OneHolder(active) ==> Lists(bs, active)
  {
    hide NoRepeats;
    forall b: Backend
      ensures HeldOutside(active, {}, b) <==> Holds(active, b)
    {
    }
  }

  lemma NoneListed()
    ensures NoRepeats<Backend>([])
  {
  }

  lemma AppendNew(bs: seq<Backend>, b: Backend)
    ensures NoRepeats(bs) && b !in bs ==> NoRepeats(bs + [b])
  {
  }

  // ----- All threads together -----

  /** A request's handler thread around `_run_backend`. */
  datatype Handler =
    | Working
    | Launched(backend: Backend)   // started, not yet registered
    | Refused(backend: Backend)    // registration refused: the handler stops it
    | Serving(backend: Backend)    // registered
    | Stopping(backend: Backend)   // released by this handler, which stops it
    | Waiting(backend: Backend)    // released by another thread, which stops it
    | Completed                    // out of the table, still holding its slot

  /** `serve_forever` between taking a slot and registering the request. */
  datatype Acceptor = Listening | Admitting(request: Request)

  datatype System = System(
    server: Server, slots: nat, acceptor: Acceptor, handlers: map<Request, Handler>,
    workers: map<Request, Option<Backend>>, aborting: seq<Backend>, stopped: seq<Backend>,
    requests: nat, launched: nat, aborted: bool)

  datatype Action =
    | Admit | Register(signalled: bool)
    | Launch(r: Request) | Announce(r: Request, signalled: bool, overdue: bool) | StopRefused(r: Request)
    | Check(r: Request, overdue: bool) | Release(r: Request) | StopOwned(r: Request) | StopWaiting(r: Request)
    | Finish(r: Request) | FreeSlot(r: Request)
    | Deadline(r: Request) | StopExpired(r: Request)
    | Signal | BeginStop | Abort(order: seq<Backend>) | StopAborted

  predicate In(s: System, r: Request, h: Handler)
  {
    r in s.handlers && s.handlers[r] == h
  }

  function Becomes(s: System, r: Request, h: Handler): System
  {
    s.(handlers := s.handlers[r := h])
  }

  /** One atomic step; an action that is not possible changes nothing. */
  ghost function Step(s: System, a: Action): System
  {
    match a
    case Admit =>
      if s.acceptor == Listening && s.slots < MAX_CONCURRENT_REQUESTS
      then s.(slots := s.slots + 1, acceptor := Admitting(s.requests), requests := s.requests + 1) else s
    case Register(signalled) => RegisterStep(s, signalled)
    case Launch(r) =>
      if In(s, r, Working) then Becomes(s, r, Launched(s.launched)).(launched := s.launched + 1) else s
    case Announce(r, signalled, overdue) => AnnounceStep(s, r, signalled, overdue)
    case Check(r, overdue) => if r in s.handlers then s.(server := RequestExpired(s.server, r, overdue).0) else s
    case Release(r) => ReleaseStep(s, r)
    case StopRefused(r) =>
      if r in s.handlers && s.handlers[r].Refused?
      then Becomes(s, r, Working).(stopped := s.stopped + [s.handlers[r].backend]) else s
    case StopOwned(r) =>
      if r in s.handlers && s.handlers[r].Stopping?
      then Becomes(s, r, Working).(stopped := s.stopped + [s.handlers[r].backend]) else s
    case StopWaiting(r) => if r in s.handlers && s.handlers[r].Waiting? then Becomes(s, r, Working) else s
    case Finish(r) =>
      if In(s, r, Working) then Becomes(s, r, Completed).(server := CompleteRequest(s.server, r)) else s
    case FreeSlot(r) =>
      if In(s, r, Completed) then s.(handlers := s.handlers - {r}, slots := if s.slots > 0 then s.slots - 1 else 0) else s
    case Deadline(r) => DeadlineStep(s, r)
    case StopExpired(r) =>
      if r in s.workers && s.workers[r].Some?
      then s.(workers := s.workers - {r}, stopped := s.stopped + [s.workers[r].value]) else s
    case Signal => s.(server := s.server.(shutdownRequested := true))
    case BeginStop => s.(server := BeginShutdown(s.server))
    case Abort(order) =>
      if Lists(order, s.server.active)
      then s.(server := AbortRequests(s.server), aborting := s.aborting + order, aborted := true) else s
    case StopAborted => s.(stopped := s.stopped + s.aborting, aborting := [])
  }

  function RegisterStep(s: System, signalled: bool): System
  {
    if s.acceptor == Listening then s else
      var r, (next, ok) := s.acceptor.request, RegisterRequest(s.server, s.acceptor.request, signalled);
      if ok then s.(server := next, acceptor := Listening, handlers := s.handlers[r := Working], workers := s.workers[r := None])
      else s.(server := next, acceptor := Listening, slots := if s.slots > 0 then s.slots - 1 else 0)
  }

  function AnnounceStep(s: System, r: Request, signalled: bool, overdue: bool): System
  {
    if r in s.handlers && s.handlers[r].Launched? then
      var b := s.handlers[r].backend;
      var (next, ok) := RegisterBackend(s.server, r, b, signalled, overdue);
      Becomes(s, r, if ok then Serving(b) else Refused(b)).(server := next)
    else s
  }

  function ReleaseStep(s: System, r: Request): System
  {
    if r in s.handlers && s.handlers[r].Serving? then
      var b := s.handlers[r].backend;
      var (next, owns) := ReleaseBackend(s.server, r, b);
      Becomes(s, r, if owns then Stopping(b) else Waiting(b)).(server := next)
    else s
  }

  /** A worker whose wait has run out; it runs once, and may do so after its request is gone. */
  function DeadlineStep(s: System, r: Request): System
  {
    if r in s.workers && s.workers[r].None? then
      var (next, taken) := ExpireRequest(s.server, r);
      if taken.Some? then s.(server := next, workers := s.workers[r := taken])
      else s.(server := next, workers := s.workers - {r})
    else s
  }

  const INITIAL := System(Server(true, false, map[]), 0, Listening, map[], map[], [], [], 0, 0, false)

  ghost function Run(actions: seq<Action>): System
  {
    if actions == [] then INITIAL else Step(Run(actions[..|actions| - 1]), actions[|actions| - 1])
  }

  // ----- Ownership -----

  /** Everyone who can be answerable for stopping a backend. `Cleaned` is the record of stops. */
  datatype Owner = Runner(request: Request) | Table(request: Request) | Worker(request: Request) | Aborter | Cleaned

  predicate Owns(s: System, o: Owner, b: Backend)
  {
    match o
    case Runner(r) => In(s, r, Launched(b)) || In(s, r, Refused(b)) || In(s, r, Stopping(b))
    case Table(r) => r in s.server.active && s.server.active[r].backend == Some(b)
    case Worker(r) => r in s.workers && s.workers[r] == Some(b)
    case Aborter => b in s.aborting
    case Cleaned => b in s.stopped
  }

  ghost predicate HasOwner(s: System, b: Backend)
  {
    exists o :: Owns(s, o, b)
  }

  /** Exactly the launched backends have an owner, and each has one. */
  ghost predicate Owned(s: System)
  {
    && (forall o, b: Backend :: Owns(s, o, b) ==> b < s.launched)
    && (forall o, p, b: Backend :: Owns(s, o, b) && Owns(s, p, b) ==> o == p)
    && (forall b: Backend :: b < s.launched ==> HasOwner(s, b))
    && NoRepeats(s.aborting) && NoRepeats(s.stopped)
  }

  function BackendOf(h: Handler): Option<Backend>
  {
    if h == Working || h == Completed then None else Some(h.backend)
  }

  /** A backend belongs to one handler. */
  predicate HandlersDistinct(handlers: map<Request, Handler>, launched: nat)
  {
    && (forall r :: r in handlers && BackendOf(handlers[r]).Some? ==> BackendOf(handlers[r]).value < launched)
    && (forall q, r :: q in handlers && r in handlers && BackendOf(handlers[q]).Some? && BackendOf(handlers[q]) == BackendOf(handlers[r]) ==> q == r)
  }

  /** A held backend is the one its handler serves. */
  predicate TableAgrees(active: map<Request, ActiveRequest>, handlers: map<Request, Handler>)
  {
    forall r :: r in active ==>
      && r in handlers && handlers[r] != Completed
      && (active[r].backend.Some? ==> handlers[r] == Serving(active[r].backend.value))
  }

  /** Request numbers are fresh, and every handler and the admission hold a slot. */
  predicate SlotsAgree(s: System)
  {
    && (forall r :: r in s.handlers ==> r < s.requests) && (forall r :: r in s.workers ==> r < s.requests)
    && (s.acceptor.Admitting? ==> s.acceptor.request < s.requests && s.acceptor.request !in s.handlers && s.acceptor.request !in s.workers)
    && s.slots == |s.handlers| + (if s.acceptor == Listening then 0 else 1)
    && s.slots <= MAX_CONCURRENT_REQUESTS
  }

  predicate ShutDown(s: System)
  {
    s.aborted ==> !s.server.accepting && forall r :: r in s.server.active ==> s.server.active[r].backend.None?
  }

  predicate Agrees(s: System)
  {
    HandlersDistinct(s.handlers, s.launched) && TableAgrees(s.server.active, s.handlers) && SlotsAgree(s) && ShutDown(s)
  }

  ghost predicate Inv(s: System)
  {
    Owned(s) && Agrees(s)
  }

  // ----- Every step keeps the invariant -----

  /** Ownership of one backend passes from one owner to another and nothing else changes. */
  ghost predicate Passes(s: System, t: System, from: Owner, to: Owner, b: Backend)
  {
    && Owns(s, from, b) && Owns(t, to, b) && t.launched == s.launched
    && (forall o, c: Backend :: Owns(t, o, c) ==> (o == to && c == b) || (Owns(s, o, c) && (o != from || c != b)))
    && (forall o, c: Backend :: Owns(s, o, c) && (o != from || c != b) ==> Owns(t, o, c))
  }

  ghost predicate Same(s: System, t: System)
  {
    t.launched == s.launched && forall o, c: Backend :: Owns(t, o, c) <==> Owns(s, o, c)
  }

  lemma PassKeepsOwned(s: System, t: System, from: Owner, to: Owner, b: Backend)
    requires Owned(s) && Passes(s, t, from, to, b) && NoRepeats(t.aborting) && NoRepeats(t.stopped)
    ensures Owned(t)
  {
    hide Owns, NoRepeats;
    forall c: Backend | c < t.launched
      ensures HasOwner(t, c)
    {
      if c == b {
        assert Owns(t, to, c);
      } else {
        assert HasOwner(s, c);
        var o :| Owns(s, o, c);
        assert Owns(t, o, c);
      }
    }
  }

  lemma SameKeepsOwned(s: System, t: System)
    requires Owned(s) && Same(s, t) && NoRepeats(t.aborting) && NoRepeats(t.stopped)
    ensures Owned(t)
  {
    hide Owns, NoRepeats;
    forall c: Backend | c < t.launched
      ensures HasOwner(t, c)
    {
      assert HasOwner(s, c);
      var o :| Owns(s, o, c);
      assert Owns(t, o, c);
    }
  }

  lemma HandlerChanges(s: System, r: Request, h: Handler)
    requires Agrees(s) && r in s.handlers && (BackendOf(h).None? || BackendOf(h) == BackendOf(s.handlers[r]))
    ensures HandlersDistinct(s.handlers[r := h], s.launched) && SlotsAgree(Becomes(s, r, h))
  {
    hide TableAgrees, ShutDown, BackendOf;
    StillDistinct(s.handlers, r, h, s.launched);
    hide HandlersDistinct;
    assert s.handlers[r := h].Keys == s.handlers.Keys;
  }

  lemma StillDistinct(handlers: map<Request, Handler>, r: Request, h: Handler, launched: nat)
    requires HandlersDistinct(handlers, launched) && r in handlers
    requires BackendOf(h).None? || BackendOf(h) == BackendOf(handlers[r])
    ensures HandlersDistinct(handlers[r := h], launched)
  {
    hide BackendOf;
  }

  lemma AdmitKeeps(s: System)
    requires Inv(s)
    ensures Inv(Step(s, Admit))
  {
    hide NoRepeats, HandlersDistinct, TableAgrees;
    SameKeepsOwned(s, Step(s, Admit));
  }

  lemma RegisterOwned(s: System, signalled: bool)
    requires Inv(s)
    ensures Owned(RegisterStep(s, signalled))
  {
    hide NoRepeats, HandlersDistinct;
    if s.acceptor != Listening {
      hide Owns;
      assert s.acceptor.request !in s.server.active;
      RegisterSame(s, signalled);
      SameKeepsOwned(s, RegisterStep(s, signalled));
    }
  }

  lemma RegisterSame(s: System, signalled: bool)
    requires s.acceptor != Listening
    requires var r := s.acceptor.request; r !in s.server.active && r !in s.handlers && r !in s.workers
    ensures Same(s, RegisterStep(s, signalled))
  {
    var t, r := RegisterStep(s, signalled), s.acceptor.request;
    assert s.server.active - {r} == s.server.active;
    forall o, c: Backend
      ensures Owns(t, o, c) <==> Owns(s, o, c)
    {
    }
  }

  lemma RegisterAgrees(s: System, signalled: bool)
    requires Agrees(s)
    ensures Agrees(RegisterStep(s, signalled))
  {
    hide HandlersDistinct;
    if s.acceptor != Listening {
      var r := s.acceptor.request;
      var (next, ok) := RegisterRequest(s.server, r, signalled);
      assert r !in s.server.active;
      if ok {
        NewHandler(s.handlers, r, s.launched);
        RegisteredAgrees(s, r);
      } else {
        assert s.server.active - {r} == s.server.active;
        assert next.active == s.server.active;
      }
    }
  }

  lemma NewHandler(handlers: map<Request, Handler>, r: Request, launched: nat)
    requires HandlersDistinct(handlers, launched) && r !in handlers
    ensures HandlersDistinct(handlers[r := Working], launched) && |handlers[r := Working]| == |handlers| + 1
  {
    assert handlers[r := Working].Keys == handlers.Keys + {r};
  }

  lemma RegisteredAgrees(s: System, r: Request)
    requires Agrees(s) && s.acceptor == Admitting(r) && s.server.accepting && |s.handlers[r := Working]| == |s.handlers| + 1
    ensures var t := s.(server := s.server.(active := s.server.active[r := ActiveRequest(None, false)]), acceptor := Listening,
                        handlers := s.handlers[r := Working], workers := s.workers[r := None]);
            TableAgrees(t.server.active, t.handlers) && SlotsAgree(t) && ShutDown(t)
  {
    hide HandlersDistinct;
  }

  lemma LaunchOwned(s: System, r: Request)
    requires Owned(s)
    ensures Owned(Step(s, Launch(r)))
  {
    hide NoRepeats;
    if In(s, r, Working) {
      var t, b := Step(s, Launch(r)), s.launched;
      assert forall o, c: Backend :: Owns(t, o, c) <==> (o == Runner(r) && c == b) || Owns(s, o, c);
      hide Owns;
      forall c: Backend | c < t.launched
        ensures HasOwner(t, c)
      {
        if c == b {
          assert Owns(t, Runner(r), c);
        } else {
          assert HasOwner(s, c);
          var o :| Owns(s, o, c);
          assert Owns(t, o, c);
        }
      }
    }
  }

  lemma LaunchAgrees(s: System, r: Request)
    requires Agrees(s)
    ensures Agrees(Step(s, Launch(r)))
  {
    hide HandlersDistinct;
    if In(s, r, Working) {
      assert s.handlers[r := Launched(s.launched)].Keys == s.handlers.Keys;
      LaunchDistinct(s.handlers, r, s.launched);
    }
  }

  lemma LaunchDistinct(handlers: map<Request, Handler>, r: Request, launched: nat)
    requires HandlersDistinct(handlers, launched) && r in handlers
    ensures HandlersDistinct(handlers[r := Launched(launched)], launched + 1)
  {
    assert BackendOf(Launched(launched)) == Some(launched);
    hide BackendOf;
  }

  lemma AnnounceOwned(s: System, r: Request, signalled: bool, overdue: bool)
    requires Inv(s)
    ensures Owned(AnnounceStep(s, r, signalled, overdue))
  {
    hide NoRepeats, HandlersDistinct, SlotsAgree, ShutDown;
    if r in s.handlers && s.handlers[r].Launched? {
      var t, b := AnnounceStep(s, r, signalled, overdue), s.handlers[r].backend;
      assert r in s.server.active ==> s.server.active[r].backend.None?;
      if t.handlers[r].Serving? {
        assert Passes(s, t, Runner(r), Table(r), b);
        PassKeepsOwned(s, t, Runner(r), Table(r), b);
      } else {
        assert Same(s, t);
        SameKeepsOwned(s, t);
      }
    }
  }

  lemma AnnounceAgrees(s: System, r: Request, signalled: bool, overdue: bool)
    requires Agrees(s)
    ensures Agrees(AnnounceStep(s, r, signalled, overdue))
  {
    hide HandlersDistinct;
    if r in s.handlers && s.handlers[r].Launched? {
      HandlerChanges(s, r, AnnounceStep(s, r, signalled, overdue).handlers[r]);
    }
  }

  lemma CheckKeeps(s: System, r: Request, overdue: bool)
    requires Inv(s)
    ensures Inv(Step(s, Check(r, overdue)))
  {
    hide NoRepeats, HandlersDistinct, SlotsAgree;
    var t := Step(s, Check(r, overdue));
    assert Same(s, t);
    SameKeepsOwned(s, t);
    hide Owned;
    SlotsUntouched(s, t);
  }

  lemma SlotsUntouched(s: System, t: System)
    requires SlotsAgree(s) && t.requests == s.requests && t.slots == s.slots && t.acceptor == s.acceptor
    requires t.handlers == s.handlers && t.workers.Keys <= s.workers.Keys
    ensures SlotsAgree(t)
  {
  }

  lemma ReleaseOwned(s: System, r: Request)
    requires Inv(s)
    ensures Owned(ReleaseStep(s, r))
  {
    hide NoRepeats, HandlersDistinct, SlotsAgree, ShutDown;
    if r in s.handlers && s.handlers[r].Serving? {
      var t, b := ReleaseStep(s, r), s.handlers[r].backend;
      if t.handlers[r].Stopping? {
        assert Passes(s, t, Table(r), Runner(r), b);
        PassKeepsOwned(s, t, Table(r), Runner(r), b);
      } else {
        assert Same(s, t);
        SameKeepsOwned(s, t);
      }
    }
  }

  lemma ReleaseAgrees(s: System, r: Request)
    requires Agrees(s)
    ensures Agrees(ReleaseStep(s, r))
  {
    hide HandlersDistinct;
    if r in s.handlers && s.handlers[r].Serving? {
      HandlerChanges(s, r, ReleaseStep(s, r).handlers[r]);
    }
  }

  lemma RecordStop(s: System, b: Backend, o: Owner)
    requires Owned(s) && Owns(s, o, b) && o != Cleaned
    ensures NoRepeats(s.stopped + [b])
  {
    hide NoRepeats;
    assert !Owns(s, Cleaned, b);
    AppendNew(s.stopped, b);
  }

  /** A handler that stops what it owns. */
  lemma StopKeeps(s: System, r: Request)
    requires Inv(s) && r in s.handlers && (s.handlers[r].Refused? || s.handlers[r].Stopping?)
    ensures Inv(Becomes(s, r, Working).(stopped := s.stopped + [s.handlers[r].backend]))
  {
    hide HandlersDistinct, SlotsAgree;
    StopOwnedKeeps(s, r);
    hide Owned;
    var t := Becomes(s, r, Working).(stopped := s.stopped + [s.handlers[r].backend]);
    HandlerChanges(s, r, Working);
    SlotsUntouched(Becomes(s, r, Working), t);
  }

  lemma StopOwnedKeeps(s: System, r: Request)
    requires Owned(s) && r in s.handlers && (s.handlers[r].Refused? || s.handlers[r].Stopping?)
    ensures Owned(Becomes(s, r, Working).(stopped := s.stopped + [s.handlers[r].backend]))
  {
    hide NoRepeats;
    var b := s.handlers[r].backend;
    var t := Becomes(s, r, Working).(stopped := s.stopped + [b]);
    assert Owns(s, Runner(r), b);
    RecordStop(s, b, Runner(r));
    assert Passes(s, t, Runner(r), Cleaned, b);
    PassKeepsOwned(s, t, Runner(r), Cleaned, b);
  }

  lemma StopWaitingKeeps(s: System, r: Request)
    requires Inv(s)
    ensures Inv(Step(s, StopWaiting(r)))
  {
    hide NoRepeats, HandlersDistinct;
    if r in s.handlers && s.handlers[r].Waiting? {
      HandlerChanges(s, r, Working);
      assert Same(s, Step(s, StopWaiting(r)));
      SameKeepsOwned(s, Step(s, StopWaiting(r)));
    }
  }

  lemma FinishOwned(s: System, r: Request)
    requires Inv(s)
    ensures Owned(Step(s, Finish(r)))
  {
    hide NoRepeats, HandlersDistinct, SlotsAgree, ShutDown;
    if In(s, r, Working) {
      assert r in s.server.active ==> s.server.active[r].backend.None?;
      assert Same(s, Step(s, Finish(r)));
      SameKeepsOwned(s, Step(s, Finish(r)));
    }
  }

  lemma FinishAgrees(s: System, r: Request)
    requires Agrees(s)
    ensures Agrees(Step(s, Finish(r)))
  {
    hide HandlersDistinct;
    if In(s, r, Working) {
      HandlerChanges(s, r, Completed);
    }
  }

  lemma FreeSlotOwned(s: System, r: Request)
    requires Owned(s)
    ensures Owned(Step(s, FreeSlot(r)))
  {
    hide NoRepeats;
    assert Same(s, Step(s, FreeSlot(r)));
    SameKeepsOwned(s, Step(s, FreeSlot(r)));
  }

  lemma FreeSlotAgrees(s: System, r: Request)
    requires Agrees(s)
    ensures Agrees(Step(s, FreeSlot(r)))
  {
    if In(s, r, Completed) {
      assert (s.handlers - {r}).Keys == s.handlers.Keys - {r};
      assert |s.handlers.Keys - {r}| == |s.handlers.Keys| - 1;
    }
  }

  lemma DeadlineOwned(s: System, r: Request)
    requires Owned(s)
    ensures Owned(DeadlineStep(s, r))
  {
    hide NoRepeats;
    if r in s.workers && s.workers[r].None? {
      var t, taken := DeadlineStep(s, r), ExpireRequest(s.server, r).1;
      if taken.Some? {
        assert Passes(s, t, Table(r), Worker(r), taken.value);
        PassKeepsOwned(s, t, Table(r), Worker(r), taken.value);
      } else {
        assert Same(s, t);
        SameKeepsOwned(s, t);
      }
    }
  }

  lemma DeadlineAgrees(s: System, r: Request)
    requires Agrees(s)
    ensures Agrees(DeadlineStep(s, r))
  {
    hide HandlersDistinct, SlotsAgree;
    SlotsUntouched(s, DeadlineStep(s, r));
  }

  lemma StopExpiredKeeps(s: System, r: Request)
    requires Inv(s)
    ensures Inv(Step(s, StopExpired(r)))
  {
    hide NoRepeats, HandlersDistinct, TableAgrees, SlotsAgree;
    if r in s.workers && s.workers[r].Some? {
      var t, b := Step(s, StopExpired(r)), s.workers[r].value;
      assert Owns(s, Worker(r), b);
      RecordStop(s, b, Worker(r));
      assert Passes(s, t, Worker(r), Cleaned, b);
      PassKeepsOwned(s, t, Worker(r), Cleaned, b);
      SlotsUntouched(s, t);
    }
  }

  lemma FlagsKeep(s: System, t: System)
    requires Inv(s) && t == s.(server := t.server) && t.server.active == s.server.active
    requires t.server.accepting ==> s.server.accepting
    ensures Inv(t)
  {
    hide NoRepeats, HandlersDistinct, TableAgrees, SlotsAgree;
    assert Same(s, t);
    SameKeepsOwned(s, t);
    SlotsUntouched(s, t);
  }

  lemma AbortKeeps(s: System, order: seq<Backend>)
    requires Inv(s)
    ensures Inv(Step(s, Abort(order)))
  {
    hide NoRepeats, Owned, Lists, HandlersDistinct, SlotsAgree;
    if Lists(order, s.server.active) {
      var t := Step(s, Abort(order));
      AbortOwned(s, t, order);
      SlotsUntouched(s, t);
    }
  }

  /** Everything the table held passes to the aborter at once. */
  lemma AbortOwned(s: System, t: System, order: seq<Backend>)
    requires Owned(s) && Lists(order, s.server.active)
    requires t == s.(server := AbortRequests(s.server), aborting := s.aborting + order, aborted := true)
    ensures Owned(t)
  {
    hide NoRepeats;
    forall b | b in order
      ensures b !in s.aborting
    {
      var r :| r in s.server.active && s.server.active[r].backend == Some(b);
      assert Owns(s, Table(r), b);
      assert !Owns(s, Aborter, b);
    }
    JoinLists(s.aborting, order);
    forall o, b: Backend | Owns(t, o, b)
      ensures exists p :: Owns(s, p, b) && (p == o || (p.Table? && o == Aborter))
    {
      if o == Aborter && b !in s.aborting {
        var r :| r in s.server.active && s.server.active[r].backend == Some(b);
        assert Owns(s, Table(r), b);
      } else {
        assert Owns(s, o, b);
      }
    }
    forall o, p, b: Backend | Owns(t, o, b) && Owns(t, p, b)
      ensures o == p
    {
      assert !o.Table? && !p.Table?;
    }
    forall c: Backend | c < t.launched
      ensures HasOwner(t, c)
    {
      assert HasOwner(s, c);
      var o :| Owns(s, o, c);
      if o.Table? {
        assert Holds(s.server.active, c);
        assert Owns(t, Aborter, c);
      } else {
        assert Owns(t, o, c);
      }
    }
  }

  lemma JoinLists(a: seq<Backend>, b: seq<Backend>)
    requires NoRepeats(a) && NoRepeats(b) && forall x :: x in b ==> x !in a
    ensures NoRepeats(a + b)
  {
    var all := a + b;
    assert (forall i :: 0 <= i < |a| ==> all[i] == a[i]) && forall i :: |a| <= i < |all| ==> all[i] == b[i - |a|];
    forall i, j | 0 <= i < j < |all|
      ensures all[i] != all[j]
    {
      if i < |a| <= j { assert all[j] in b && all[i] in a; }
    }
  }

  lemma ShutDownUntouched(s: System, t: System)
    requires ShutDown(s) && t.server == s.server && t.aborted == s.aborted
    ensures ShutDown(t)
  {
  }

  lemma StopAbortedKeeps(s: System)
    requires Inv(s)
    ensures Inv(Step(s, StopAborted))
  {
    hide NoRepeats, HandlersDistinct, TableAgrees, SlotsAgree, ShutDown;
    var t := Step(s, StopAborted);
    SlotsUntouched(s, t);
    ShutDownUntouched(s, t);
    forall b | b in s.aborting
      ensures b !in s.stopped
    {
      assert Owns(s, Aborter, b);
      assert !Owns(s, Cleaned, b);
    }
    JoinLists(s.stopped, s.aborting);
    NoneListed();
    assert forall o, b: Backend :: Owns(t, o, b) ==> if o == Cleaned then Owns(s, Cleaned, b) || Owns(s, Aborter, b) else o != Aborter && Owns(s, o, b);
    forall c: Backend | c < t.launched
      ensures HasOwner(t, c)
    {
      assert HasOwner(s, c);
      var o :| Owns(s, o, c);
      assert Owns(t, if o == Aborter then Cleaned else o, c);
    }
  }

  /** No two requests hold one backend, so an abort lists each held backend once. */
  lemma TableHasOneHolder(s: System)
    requires Inv(s)
    ensures OneHolder(s.server.active)
  {
    hide Owned, SlotsAgree, ShutDown;
    var active := s.server.active;
    forall q, r | q in active && r in active && active[q].backend.Some? && active[q].backend == active[r].backend
      ensures q == r
    {
      assert BackendOf(s.handlers[q]) == BackendOf(s.handlers[r]);
    }
  }

  lemma StepKeepsInv(s: System, a: Action)
    requires Inv(s)
    ensures Inv(Step(s, a))
  {
    hide Owned, Agrees, RegisterStep, AnnounceStep, ReleaseStep, DeadlineStep, Lists;
    match a {
      case Admit => AdmitKeeps(s);
      case Register(signalled) => RegisterOwned(s, signalled); RegisterAgrees(s, signalled);
      case Launch(r) => LaunchOwned(s, r); LaunchAgrees(s, r);
      case Announce(r, signalled, overdue) => AnnounceOwned(s, r, signalled, overdue); AnnounceAgrees(s, r, signalled, overdue);
      case StopRefused(r) => if r in s.handlers && s.handlers[r].Refused? { StopKeeps(s, r); }
      case Check(r, overdue) => CheckKeeps(s, r, overdue);
      case Release(r) => ReleaseOwned(s, r); ReleaseAgrees(s, r);
      case StopOwned(r) => if r in s.handlers && s.handlers[r].Stopping? { StopKeeps(s, r); }
      case StopWaiting(r) => StopWaitingKeeps(s, r);
      case Finish(r) => FinishOwned(s, r); FinishAgrees(s, r);
      case FreeSlot(r) => FreeSlotOwned(s, r); FreeSlotAgrees(s, r);
      case Deadline(r) => DeadlineOwned(s, r); DeadlineAgrees(s, r);
      case StopExpired(r) => StopExpiredKeeps(s, r);
      case Signal => FlagsKeep(s, Step(s, a));
      case BeginStop => FlagsKeep(s, Step(s, a));
      case Abort(order) => AbortKeeps(s, order);
      case StopAborted => StopAbortedKeeps(s);
    }
  }

  lemma {:induction false} RunKeepsInv(actions: seq<Action>)
    ensures Inv(Run(actions))
  {
    hide Step;
    if actions == [] {
    } else {
      RunKeepsInv(actions[..|actions| - 1]);
      StepKeepsInv(Run(actions[..|actions| - 1]), actions[|actions| - 1]);
    }
  }

  // ----- Whole-run results -----

  /** In every interleaving, each launched backend has exactly one owner: the handler that launched or released
      it, the table, a deadline worker, the shutdown, or the record of finished stops. */
  lemma EveryBackendHasOneOwner(actions: seq<Action>, b: Backend)
    requires b < Run(actions).launched
    ensures exists o :: Owns(Run(actions), o, b) && forall p :: Owns(Run(actions), p, b) ==> p == o
  {
    hide Run, Owns;
    RunKeepsInv(actions);
    assert HasOwner(Run(actions), b);
    var o :| Owns(Run(actions), o, b);
    assert forall p :: Owns(Run(actions), p, b) ==> p == o;
  }

  /** No backend is ever stopped twice, nor one that was never launched. */
  lemma NeverStoppedTwice(actions: seq<Action>, b: Backend)
    ensures multiset(Run(actions).stopped)[b] <= 1
    ensures b in Run(actions).stopped ==> b < Run(actions).launched
  {
    hide Run;
    RunKeepsInv(actions);
    AtMostOnce(Run(actions).stopped, b);
    assert b in Run(actions).stopped ==> Owns(Run(actions), Cleaned, b);
  }

  lemma {:induction false} AtMostOnce(bs: seq<Backend>, b: Backend)
    requires NoRepeats(bs)
    ensures multiset(bs)[b] == if b in bs then 1 else 0
  {
    if bs != [] {
      var n := |bs| - 1;
      AtMostOnce(bs[..n], b);
      assert bs == bs[..n] + [bs[n]];
      assert bs[n] !in bs[..n];
    }
  }

  /** Once no thread has anything left to do, every launched backend has been stopped exactly once. */
  lemma AllStoppedAtTheEnd(actions: seq<Action>, b: Backend)
    requires var s := Run(actions);
             s.handlers == map[] && s.aborting == [] && (forall r :: r in s.workers ==> s.workers[r].None?)
    ensures b < Run(actions).launched ==> multiset(Run(actions).stopped)[b] == 1
  {
    hide Run;
    var s := Run(actions);
    RunKeepsInv(actions);
    if b < s.launched {
      assert HasOwner(s, b);
      var o :| Owns(s, o, b);
      assert o == Cleaned;
      AtMostOnce(s.stopped, b);
    }
  }

  /** A handler that found its backend gone waits for another thread that stops it, or has. */
  lemma WaitingIsStoppedElsewhere(actions: seq<Action>, r: Request, b: Backend)
    requires In(Run(actions), r, Waiting(b))
    ensures var s := Run(actions); b in s.stopped || b in s.aborting || exists q :: Owns(s, Worker(q), b)
  {
    hide Run;
    RunKeepsInv(actions);
    var s := Run(actions);
    assert HasOwner(s, b);
    var o :| Owns(s, o, b);
    forall q
      ensures !Owns(s, Runner(q), b) && !Owns(s, Table(q), b)
    {
      assert q in s.handlers && BackendOf(s.handlers[q]) == BackendOf(s.handlers[r]) ==> q == r;
    }
    assert o.Worker? ==> Owns(s, Worker(o.request), b);
  }

  /** At most eight requests are active, and every one of them holds a slot. */
  lemma AtMostEightActive(actions: seq<Action>)
    ensures |Run(actions).server.active| <= Run(actions).slots <= MAX_CONCURRENT_REQUESTS
  {
    hide Run, Owned;
    RunKeepsInv(actions);
    var s := Run(actions);
    assert s.server.active.Keys <= s.handlers.Keys;
    Subset(s.server.active.Keys, s.handlers.Keys);
  }

  lemma {:induction false} Subset(a: set<Request>, b: set<Request>)
    requires a <= b
    ensures |a| <= |b|
  {
    if a != {} {
      var x :| x in a;
      Subset(a - {x}, b - {x});
    }
  }

  lemma StepStaysAborted(s: System, a: Action)
    requires s.aborted
    ensures Step(s, a).aborted
  {
    hide Lists, RegisterRequest, RegisterBackend, ReleaseBackend, RequestExpired, ExpireRequest, AbortRequests, BeginShutdown;
  }

  lemma {:induction false} AbortedStays(actions: seq<Action>, more: seq<Action>)
    ensures Run(actions).aborted ==> Run(actions + more).aborted
    decreases |more|
  {
    hide Step;
    if more == [] {
      assert actions + more == actions;
    } else {
      assert (actions + more)[..|actions + more| - 1] == actions + more[..|more| - 1];
      AbortedStays(actions, more[..|more| - 1]);
      if Run(actions).aborted { StepStaysAborted(Run(actions + more[..|more| - 1]), more[|more| - 1]); }
    }
  }

  /** Once the shutdown abort has run, then and at every later point no request holds a backend, and neither a
      request nor a backend can register any more. */
  lemma NothingAfterAbort(actions: seq<Action>, more: seq<Action>, r: Request, b: Backend, signalled: bool, overdue: bool)
    requires Run(actions).aborted
    ensures var s := Run(actions + more);
            && !Holds(s.server.active, b)
            && !RegisterRequest(s.server, r, signalled).1
            && !RegisterBackend(s.server, r, b, signalled, overdue).1
  {
    hide Run, Owned;
    AbortedStays(actions, more);
    RunKeepsInv(actions + more);
  }

  // ----- What the expiry flag does and does not say -----

  /** A request goes from unexpired to expired with its backend still in the table exactly when its handler looks at
      the clock while serving one: every other way of expiring it takes the backend away. */
  lemma ExpiresHoldingExactly(s: System, a: Action, r: Request)
    requires r in s.server.active && !s.server.active[r].expired
    requires r in Step(s, a).server.active && Step(s, a).server.active[r].expired
    ensures Step(s, a).server.active[r].backend.Some? <==> a.Check? && s.server.active[r].backend.Some?
  {
    hide Lists;
  }

  /** In every run, expired or not, what the table holds is what the handler of that request serves, so the handler
      is still to release it. */
  lemma HeldIsServed(actions: seq<Action>, r: Request, b: Backend)
    requires Owns(Run(actions), Table(r), b)
    ensures In(Run(actions), r, Serving(b))
  {
    hide Run, Owned, HandlersDistinct, SlotsAgree, ShutDown;
    RunKeepsInv(actions);
  }

  /** An expired request keeps its backend until its handler releases it or the shutdown takes it: the deadline
      worker takes nothing, and no other step can. */
  lemma ExpiredKeepsExactly(s: System, a: Action, r: Request, b: Backend)
    requires Agrees(s) && Owns(s, Table(r), b) && s.server.active[r].expired
    ensures Owns(Step(s, a), Table(r), b) <==>
              a != Release(r) && !(a.Abort? && Lists(a.order, s.server.active))
  {
    hide Agrees, Lists, Owns, Step;
    HeldMeansServing(s, r, b);
    match a {
      case Release(q) => KeptUnlessReleased(s, q, r, b);
      case Abort(order) => KeptUnlessAborted(s, order, r, b);
      case Register(_) => KeptByOthers(s, a, r, b);
      case Announce(_, _, _) => KeptByOthers(s, a, r, b);
      case Deadline(_) => KeptByOthers(s, a, r, b);
      case _ => KeptByRest(s, a, r, b);
    }
  }

  lemma KeptUnlessReleased(s: System, q: Request, r: Request, b: Backend)
    requires In(s, r, Serving(b)) && Owns(s, Table(r), b)
    ensures Owns(Step(s, Release(q)), Table(r), b) <==> q != r
  {
  }

  lemma KeptUnlessAborted(s: System, order: seq<Backend>, r: Request, b: Backend)
    requires Owns(s, Table(r), b)
    ensures Owns(Step(s, Abort(order)), Table(r), b) <==> !Lists(order, s.server.active)
  {
    hide Lists;
  }

  lemma KeptByOthers(s: System, a: Action, r: Request, b: Backend)
    requires In(s, r, Serving(b)) && Owns(s, Table(r), b) && s.server.active[r].expired
    requires s.acceptor.Admitting? ==> s.acceptor.request != r
    requires a.Register? || a.Announce? || a.Deadline?
    ensures Owns(Step(s, a), Table(r), b)
  {
  }

  lemma KeptByRest(s: System, a: Action, r: Request, b: Backend)
    requires In(s, r, Serving(b)) && Owns(s, Table(r), b) && s.server.active[r].expired
    requires !a.Register? && !a.Announce? && !a.Deadline? && !a.Release? && !a.Abort?
    ensures Owns(Step(s, a), Table(r), b)
  {
    hide RegisterStep, AnnounceStep, DeadlineStep, ReleaseStep, Lists;
  }

  lemma HeldMeansServing(s: System, r: Request, b: Backend)
    requires Agrees(s) && Owns(s, Table(r), b)
    ensures In(s, r, Serving(b)) && (s.acceptor.Admitting? ==> s.acceptor.request != r)
  {
    hide HandlersDistinct, ShutDown;
  }

  lemma RunSnoc(actions: seq<Action>, a: Action)
    ensures Run(actions + [a]) == Step(Run(actions), a)
  {
    hide Step;
    assert (actions + [a])[..|actions|] == actions;
  }

  const LAUNCHED_ONCE: seq<Action> := [Admit, Register(false), Launch(0)]

  lemma OneLaunched()
    ensures var s := Run(LAUNCHED_ONCE);
            && s.server == Server(true, false, map[0 := ActiveRequest(None, false)])
            && s.handlers == map[0 := Launched(0)]
  {
    hide Run;
    assert [Admit] == [] + [Admit] && [Admit, Register(false)] == [Admit] + [Register(false)];
    assert LAUNCHED_ONCE == [Admit, Register(false)] + [Launch(0)];
    StartsEmpty();
    RunSnoc([], Admit);
    RunSnoc([Admit], Register(false));
    RunSnoc([Admit, Register(false)], Launch(0));
  }

  lemma StartsEmpty()
    ensures Run([]) == INITIAL
  {
  }

  /** A run in which a request is expired and holds its backend, and still does after the deadline worker has run. */
  lemma ExpiredMayStillHold()
    ensures var s := Run(LAUNCHED_ONCE + [Announce(0, false, false)] + [Check(0, true)]);
            && s.server.active == map[0 := ActiveRequest(Some(0), true)]
            && Owns(Step(s, Deadline(0)), Table(0), 0)
  {
    hide Run;
    OneLaunched();
    RunSnoc(LAUNCHED_ONCE, Announce(0, false, false));
    RunSnoc(LAUNCHED_ONCE + [Announce(0, false, false)], Check(0, true));
  }
}

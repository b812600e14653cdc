/** What the Git server's threads achieve, besides never losing a backend: undisturbed requests run to their end, a
    deadline takes effect, and from every state of every run the work can be brought to an end
    (scripts/dev/git-http-server.py). */
module GitServerProgress {

  import opened Text
  import opened GitHttpServer

  /** The state some actions later. */
  ghost function After(s: System, actions: seq<Action>): System
    decreases |actions|
  {
    if actions == [] then s else After(Step(s, actions[0]), actions[1..])
  }

  lemma AfterCons(s: System, a: Action, rest: seq<Action>)
    ensures After(s, [a] + rest) == After(Step(s, a), rest)
  {
    hide Step;
    assert ([a] + rest)[1..] == rest;
  }

  lemma {:induction false} AfterConcat(s: System, a: seq<Action>, b: seq<Action>)
    ensures After(s, a + b) == After(After(s, a), b)
    decreases |a|
  {
    hide Step;
    if a == [] {
      assert a + b == b;
    } else {
      assert (a + b)[1..] == a[1..] + b;
      AfterConcat(Step(s, a[0]), a[1..], b);
    }
  }

  lemma {:induction false} RunThenAfter(actions: seq<Action>, more: seq<Action>)
    ensures Run(actions + more) == After(Run(actions), more)
    decreases |more|
  {
    hide Step, Run;
    if more == [] {
      assert actions + more == actions;
    } else {
      var front, last := more[..|more| - 1], more[|more| - 1];
      assert more == front + [last] && actions + more == (actions + front) + [last];
      RunThenAfter(actions, front);
      RunSnoc(actions + front, last);
      AfterConcat(Run(actions), front, [last]);
      AfterOne(After(Run(actions), front), last);
    }
  }

  lemma AfterOne(s: System, a: Action)
    ensures After(s, [a]) == Step(s, a)
  {
    hide Step;
    assert [a][1..] == [];
  }

  lemma After4(s: System, a: Action, b: Action, c: Action, d: Action)
    ensures After(s, [a, b, c, d]) == Step(Step(Step(Step(s, a), b), c), d)
  {
    hide Step, After;
    assert [a, b, c, d] == [a] + [b, c, d] && [b, c, d] == [b] + [c, d] && [c, d] == [c] + [d];
    AfterCons(s, a, [b, c, d]);
    AfterCons(Step(s, a), b, [c, d]);
    AfterCons(Step(Step(s, a), b), c, [d]);
    AfterOne(Step(Step(Step(s, a), b), c), d);
  }

  // ----- One request from beginning to end -----

  /** The server takes requests and has a slot free: fewer than eight are in use. */
  predicate CanAdmit(s: System)
  {
    s.acceptor == Listening && s.slots < 8 && s.server.accepting && !s.server.shutdownRequested
  }

  /** A new request and its backend, registered and served. */
  function Opened(s: System): System
  {
    s.(server := s.server.(active := s.server.active[s.requests := ActiveRequest(Some(s.launched), false)]),
       slots := s.slots + 1, handlers := s.handlers[s.requests := Serving(s.launched)],
       workers := s.workers[s.requests := None], requests := s.requests + 1, launched := s.launched + 1)
  }

  /** A request that holds no backend, being worked on. */
  function Admitted(s: System): System
  {
    s.(server := s.server.(active := s.server.active[s.requests := ActiveRequest(None, false)]), slots := s.slots + 1,
       handlers := s.handlers[s.requests := Working], workers := s.workers[s.requests := None], requests := s.requests + 1)
  }

  lemma AdmitsRequest(s: System)
    requires CanAdmit(s)
    ensures Step(Step(s, Admit), Register(false)) == Admitted(s)
  {
    assert Step(s, Admit) == s.(slots := s.slots + 1, acceptor := Admitting(s.requests), requests := s.requests + 1);
  }

  lemma LaunchesBackend(s: System, r: Request)
    requires In(s, r, Working) && r in s.server.active && s.server.active[r] == ActiveRequest(None, false)
    requires s.server.accepting && !s.server.shutdownRequested
    ensures Step(Step(s, Launch(r)), Announce(r, false, false)) ==
              s.(server := s.server.(active := s.server.active[r := ActiveRequest(Some(s.launched), false)]),
                 handlers := s.handlers[r := Serving(s.launched)], launched := s.launched + 1)
  {
    var u := Step(s, Launch(r));
    assert u == s.(handlers := s.handlers[r := Launched(s.launched)], launched := s.launched + 1);
    hide Step;
    assert s.handlers[r := Launched(s.launched)][r := Serving(s.launched)] == s.handlers[r := Serving(s.launched)];
    Announced(u, r, s.launched);
  }

  lemma Announced(s: System, r: Request, b: Backend)
    requires In(s, r, Launched(b)) && r in s.server.active && s.server.active[r] == ActiveRequest(None, false)
    requires s.server.accepting && !s.server.shutdownRequested
    ensures Step(s, Announce(r, false, false)) ==
              s.(server := s.server.(active := s.server.active[r := ActiveRequest(Some(b), false)]),
                 handlers := s.handlers[r := Serving(b)])
  {
  }

  /** An undisturbed request is admitted, and its backend launched and registered. */
  lemma RequestOpens(s: System)
    requires CanAdmit(s)
    ensures After(s, [Admit, Register(false), Launch(s.requests), Announce(s.requests, false, false)]) == Opened(s)
  {
    hide After, Step;
    var r, b, t := s.requests, s.launched, Admitted(s);
    After4(s, Admit, Register(false), Launch(r), Announce(r, false, false));
    AdmitsRequest(s);
    LaunchesBackend(t, r);
    assert t.handlers[r := Serving(b)] == s.handlers[r := Serving(b)];
    assert t.server.active[r := ActiveRequest(Some(b), false)] == s.server.active[r := ActiveRequest(Some(b), false)];
  }

  /** The handler that releases its backend stops it. */
  lemma ReleasesOwned(s: System, r: Request, b: Backend)
    requires In(s, r, Serving(b)) && Owns(s, Table(r), b)
    ensures Step(Step(s, Release(r)), StopOwned(r)) ==
              s.(server := s.server.(active := s.server.active[r := ActiveRequest(None, s.server.active[r].expired)]),
                 handlers := s.handlers[r := Working], stopped := s.stopped + [b])
  {
    var t := Step(s, Release(r));
    assert t == s.(server := s.server.(active := s.server.active[r := ActiveRequest(None, s.server.active[r].expired)]),
                   handlers := s.handlers[r := Stopping(b)]);
    assert t.handlers[r := Working] == s.handlers[r := Working];
  }

  /** A request with no backend left leaves the table and frees its slot. */
  lemma RequestLeaves(s: System, r: Request)
    requires In(s, r, Working) && s.slots > 0
    ensures Step(Step(s, Finish(r)), FreeSlot(r)) ==
              s.(server := s.server.(active := s.server.active - {r}), slots := s.slots - 1, handlers := s.handlers - {r})
  {
    var t := Step(s, Finish(r));
    assert t == s.(server := s.server.(active := s.server.active - {r}), handlers := s.handlers[r := Completed]);
    assert t.handlers - {r} == s.handlers - {r};
  }

  /** A serving request whose backend is still in the table is stopped by its own handler, and leaves nothing. */
  lemma RequestCloses(s: System, r: Request, b: Backend)
    requires In(s, r, Serving(b)) && Owns(s, Table(r), b) && s.slots > 0
    ensures After(s, [Release(r), StopOwned(r), Finish(r), FreeSlot(r)]) ==
              s.(server := s.server.(active := s.server.active - {r}), slots := s.slots - 1,
                 handlers := s.handlers - {r}, stopped := s.stopped + [b])
  {
    hide After, Step;
    After4(s, Release(r), StopOwned(r), Finish(r), FreeSlot(r));
    ReleasesOwned(s, r, b);
    var t := Step(Step(s, Release(r)), StopOwned(r));
    RequestLeaves(t, r);
    assert t.handlers - {r} == s.handlers - {r} && t.server.active - {r} == s.server.active - {r};
  }

  /** From any state of the invariant with room, an undisturbed request runs from admission to the end: its one backend
      is stopped by its handler, its slot is free again and the table is as it was. */
  lemma UndisturbedRequest(s: System)
    requires Inv(s) && CanAdmit(s)
    ensures var r := s.requests;
            After(s, [Admit, Register(false), Launch(r), Announce(r, false, false)] + [Release(r), StopOwned(r), Finish(r), FreeSlot(r)])
            == s.(workers := s.workers[r := None], requests := r + 1, launched := s.launched + 1, stopped := s.stopped + [s.launched])
  {
    hide After, Step, Inv;
    var r, t := s.requests, Opened(s);
    FreshRequest(s);
    RequestOpens(s);
    AfterConcat(s, [Admit, Register(false), Launch(r), Announce(r, false, false)], [Release(r), StopOwned(r), Finish(r), FreeSlot(r)]);
    RequestCloses(t, r, s.launched);
    assert t.server.active - {r} == s.server.active;
    assert t.handlers - {r} == s.handlers;
  }

  lemma FreshRequest(s: System)
    requires Inv(s)
    ensures s.requests !in s.handlers && s.requests !in s.workers && s.requests !in s.server.active
  {
    hide Owned, HandlersDistinct, ShutDown;
  }

  // ----- Deadlines -----

  /** A deadline that passes on an unexpired request expires it and takes its backend, for the worker to stop. */
  lemma DeadlineTakes(s: System, r: Request)
    requires r in s.server.active && !s.server.active[r].expired && r in s.workers && s.workers[r].None?
    ensures var t := Step(s, Deadline(r));
            && t.server.active == s.server.active[r := ActiveRequest(None, true)]
            && t.handlers == s.handlers && t.stopped == s.stopped
            && (s.server.active[r].backend.None? ==> r !in t.workers)
            && (s.server.active[r].backend.Some? ==> t.workers == s.workers[r := s.server.active[r].backend])
            && forall b: Backend :: s.server.active[r].backend == Some(b) ==> Owns(t, Worker(r), b)
  {
  }

  /** The worker then stops it, and the handler finds it gone and ends without stopping anything. */
  lemma ExpiredRequestEnds(s: System, r: Request, b: Backend)
    requires In(s, r, Serving(b)) && Owns(s, Table(r), b) && !s.server.active[r].expired && r in s.workers && s.workers[r].None?
    ensures var t := After(s, [Deadline(r), StopExpired(r), Release(r), StopWaiting(r)]);
            && t == s.(server := s.server.(active := s.server.active[r := ActiveRequest(None, true)]),
                       handlers := s.handlers[r := Working], workers := s.workers - {r}, stopped := s.stopped + [b])
  {
    After4(s, Deadline(r), StopExpired(r), Release(r), StopWaiting(r));
    var t := Step(s, Deadline(r));
    assert t.workers == s.workers[r := Some(b)];
    var u := Step(t, StopExpired(r));
    assert u.workers == s.workers - {r};
    var v := Step(u, Release(r));
    assert v.handlers == s.handlers[r := Waiting(b)];
    assert v.handlers[r := Working] == s.handlers[r := Working];
  }

  /** A backend that is late to register is stopped by its handler at once. */
  lemma LateBackendIsStopped(s: System, r: Request, b: Backend, signalled: bool)
    requires In(s, r, Launched(b))
    ensures var t := Step(Step(s, Announce(r, signalled, true)), StopRefused(r));
            t.handlers == s.handlers[r := Working] && t.stopped == s.stopped + [b]
  {
    var u := Step(s, Announce(r, signalled, true));
    assert u.handlers == s.handlers[r := Refused(b)];
  }

  /** An abort takes exactly what the table held, and then stops it. */
  lemma AbortStopsAll(s: System, order: seq<Backend>)
    requires Lists(order, s.server.active)
    ensures var t := Step(Step(s, Abort(order)), StopAborted);
            && t.stopped == s.stopped + (s.aborting + order) && t.aborting == []
            && forall b: Backend :: Holds(s.server.active, b) ==> b in t.stopped
  {
  }

  // ----- Shutdown -----

  predicate Closed(s: System)
  {
    s.server.shutdownRequested || !s.server.accepting
  }

  /** The active requests were active before, and what they hold they held before. */
  predicate OnlyLoses(before: map<Request, ActiveRequest>, after: map<Request, ActiveRequest>)
  {
    forall r :: r in after ==> r in before && (after[r].backend.Some? ==> after[r].backend == before[r].backend)
  }

  lemma ClosedStep(s: System, a: Action)
    requires Closed(s)
    ensures Closed(Step(s, a)) && OnlyLoses(s.server.active, Step(s, a).server.active)
  {
    hide Lists;
  }

  /** A signal, the start of a shutdown and an abort each close the server. From then on, whatever the threads do, no
      request becomes active and no backend is registered. */
  lemma {:induction false} ClosedForGood(s: System, more: seq<Action>)
    requires Closed(s)
    ensures Closed(After(s, more)) && OnlyLoses(s.server.active, After(s, more).server.active)
    decreases |more|
  {
    hide Step, Closed;
    if more == [] {
    } else {
      ClosedStep(s, more[0]);
      ClosedForGood(Step(s, more[0]), more[1..]);
    }
  }

  lemma ClosingActions(s: System, order: seq<Backend>)
    ensures Closed(Step(s, Signal)) && Closed(Step(s, BeginStop))
    ensures Lists(order, s.server.active) ==> Closed(Step(s, Abort(order)))
    ensures Step(s, Signal).server.active == s.server.active && Step(s, BeginStop).server.active == s.server.active
  {
    hide Lists;
  }

  // ----- Every run can be brought to its end -----

  /** What a request's handler does next when nothing goes wrong. */
  function Onward(r: Request, h: Handler): Action
  {
    match h
    case Launched(_) => Announce(r, false, false)
    case Serving(_) => Release(r)
    case Refused(_) => StopRefused(r)
    case Stopping(_) => StopOwned(r)
    case Waiting(_) => StopWaiting(r)
    case Working => Finish(r)
    case Completed => FreeSlot(r)
  }

  function Remaining(h: Handler): nat
  {
    match h
    case Launched(_) => 4
    case Serving(_) => 3
    case Working => 1
    case Completed => 0
    case _ => 2
  }

  /** Nothing was admitted or launched, and the server still takes or refuses requests as before. */
  predicate NothingNew(s: System, t: System)
  {
    && t.launched == s.launched && t.requests == s.requests
    && t.server.accepting == s.server.accepting && t.server.shutdownRequested == s.server.shutdownRequested
  }

  /** The next thing request `r`'s handler does touches no other request. */
  predicate MovesOn(s: System, t: System, r: Request)
    requires r in s.handlers
  {
    && NothingNew(s, t) && t.acceptor == s.acceptor
    && (s.handlers[r] == Completed ==> t.handlers == s.handlers - {r})
    && (s.handlers[r] != Completed ==>
          r in t.handlers && t.handlers == s.handlers[r := t.handlers[r]] && Remaining(t.handlers[r]) < Remaining(s.handlers[r]))
  }

  lemma AnnouncementMovesOn(s: System, r: Request)
    requires r in s.handlers && s.handlers[r].Launched?
    ensures MovesOn(s, AnnounceStep(s, r, false, false), r)
  {
  }

  lemma ReleaseMovesOn(s: System, r: Request)
    requires r in s.handlers && s.handlers[r].Serving?
    ensures MovesOn(s, ReleaseStep(s, r), r)
  {
  }

  lemma HandlerMovesOn(s: System, r: Request)
    requires r in s.handlers
    ensures MovesOn(s, Step(s, Onward(r, s.handlers[r])), r)
  {
    hide AnnounceStep, ReleaseStep;
    match s.handlers[r] {
      case Launched(_) => AnnouncementMovesOn(s, r);
      case Serving(_) => ReleaseMovesOn(s, r);
      case _ =>
    }
  }

  lemma {:induction false} HandlerEnds(s: System, r: Request) returns (more: seq<Action>)
    requires Inv(s) && r in s.handlers
    ensures var t := After(s, more);
            Inv(t) && NothingNew(s, t) && t.acceptor == s.acceptor && t.handlers == s.handlers - {r}
    decreases Remaining(s.handlers[r])
  {
    hide After, Step, Inv;
    var a := Onward(r, s.handlers[r]);
    var t := Step(s, a);
    HandlerMovesOn(s, r);
    StepKeepsInv(s, a);
    if s.handlers[r] == Completed {
      more := [a];
      AfterOne(s, a);
    } else {
      var rest := HandlerEnds(t, r);
      more := [a] + rest;
      AfterCons(s, a, rest);
      assert t.handlers - {r} == s.handlers - {r};
    }
  }

  lemma {:induction false} HandlersEnd(s: System) returns (more: seq<Action>)
    requires Inv(s)
    ensures var t := After(s, more);
            Inv(t) && NothingNew(s, t) && t.acceptor == s.acceptor && t.handlers == map[]
    decreases |s.handlers|
  {
    hide Step, Inv;
    if s.handlers == map[] {
      more := [];
    } else {
      var r :| r in s.handlers.Keys;
      var first := HandlerEnds(s, r);
      var t := After(s, first);
      assert t.handlers.Keys == s.handlers.Keys - {r};
      var rest := HandlersEnd(t);
      AfterConcat(s, first, rest);
      more := first + rest;
    }
  }

  /** What a deadline worker does once no request is active: it stops what it took, or finds its request gone. */
  lemma WorkerMovesOn(s: System, r: Request)
    requires r in s.workers && s.server.active == map[]
    ensures var t := Step(s, if s.workers[r].Some? then StopExpired(r) else Deadline(r));
            && NothingNew(s, t) && t.acceptor == s.acceptor && t.handlers == s.handlers
            && t.server.active == map[] && t.workers == s.workers - {r}
  {
  }

  lemma {:induction false} WorkersEnd(s: System) returns (more: seq<Action>)
    requires Inv(s) && s.server.active == map[]
    ensures var t := After(s, more);
            && Inv(t) && NothingNew(s, t) && t.acceptor == s.acceptor && t.handlers == s.handlers
            && t.server.active == map[] && t.workers == map[]
    decreases |s.workers|
  {
    hide Step, Inv;
    if s.workers == map[] {
      more := [];
    } else {
      var r :| r in s.workers.Keys;
      var a := if s.workers[r].Some? then StopExpired(r) else Deadline(r);
      WorkerMovesOn(s, r);
      StepKeepsInv(s, a);
      assert Step(s, a).workers.Keys == s.workers.Keys - {r};
      var rest := WorkersEnd(Step(s, a));
      more := [a] + rest;
      AfterCons(s, a, rest);
    }
  }

  /** No request, no worker, nothing to stop, and every slot free. */
  predicate Idle(s: System)
  {
    && s.acceptor == Listening && s.slots == 0 && s.server.active == map[]
    && s.handlers == map[] && s.workers == map[] && s.aborting == []
  }

  lemma IdleHasStoppedAll(s: System, b: Backend)
    requires Inv(s) && Idle(s) && b < s.launched
    ensures multiset(s.stopped)[b] == 1
  {
    assert HasOwner(s, b);
    var o :| Owns(s, o, b);
    assert o == Cleaned;
    AtMostOnce(s.stopped, b);
  }

  lemma EmptyTable(s: System)
    requires Inv(s) && s.handlers == map[]
    ensures s.server.active == map[] && (s.acceptor == Listening ==> s.slots == 0)
  {
    hide Owned, HandlersDistinct, ShutDown;
    assert forall r :: r in s.server.active ==> r in s.handlers;
  }

  lemma AdmissionEnds(s: System)
    requires s.acceptor.Admitting?
    ensures var t := Step(s, Register(false)); t.acceptor == Listening && NothingNew(s, t)
  {
  }

  /** From a state of the invariant with no admission under way, the requests, the workers and the shutdown can
      finish by themselves: no signal, no further request and no further backend is needed. */
  lemma ListeningCanFinish(s: System) returns (more: seq<Action>)
    requires Inv(s) && s.acceptor == Listening
    ensures var t := After(s, more); Inv(t) && Idle(t) && NothingNew(s, t)
  {
    hide After, Step, Inv;
    var first := HandlersEnd(s);
    var t := After(s, first);
    EmptyTable(t);
    var second := WorkersEnd(t);
    var u := After(t, second);
    AfterConcat(s, first, second);
    StepKeepsInv(u, StopAborted);
    AfterConcat(s, first + second, [StopAborted]);
    AfterOne(u, StopAborted);
    more := first + second + [StopAborted];
    AbortedStop(u);
    EmptyTable(After(s, more));
  }

  lemma AbortedStop(s: System)
    ensures Step(s, StopAborted) == s.(stopped := s.stopped + s.aborting, aborting := [])
  {
  }

  /** No run can get stuck with a backend alive: from every state of every run, some further actions end in an idle
      server in which every backend launched has been stopped exactly once. None of them admits a request, launches a
      backend or signals. */
  lemma EveryRunCanFinish(actions: seq<Action>) returns (more: seq<Action>)
    ensures var s, t := Run(actions), Run(actions + more);
            && Idle(t) && NothingNew(s, t)
            && forall b: Backend :: b < s.launched ==> multiset(t.stopped)[b] == 1
  {
    hide After, Step, Run, Inv, Idle;
    var s := Run(actions);
    RunKeepsInv(actions);
    if s.acceptor == Listening {
      more := ListeningCanFinish(s);
    } else {
      var a := Register(false);
      StepKeepsInv(s, a);
      AdmissionEnds(s);
      var rest := ListeningCanFinish(Step(s, a));
      more := [a] + rest;
      AfterCons(s, a, rest);
    }
    RunThenAfter(actions, more);
    var t := Run(actions + more);
    RunKeepsInv(actions + more);
    forall b: Backend | b < s.launched
      ensures multiset(t.stopped)[b] == 1
    {
      IdleHasStoppedAll(t, b);
    }
  }
}

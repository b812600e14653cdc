/** Why the receiver refuses a stream: the first event that cannot be taken, and its reason
    (crates/automata-ci-action-actions/src/parser.rs). */
module YamlRefusals {

  import opened Text
  import Utf8
  import opened YamlReceiver

  // ----- What the events add up to -----

  predicate OpensNode(e: Event)
  {
    e.ScalarEvent? || e.CollectionStart?
  }

  function Nodes(events: seq<Event>): nat
  {
    if events == [] then 0 else Nodes(events[..|events| - 1]) + if OpensNode(events[|events| - 1]) then 1 else 0
  }

  function Texts(events: seq<Event>): nat
  {
    if events == [] then 0
    else
      var last := events[|events| - 1];
      Texts(events[..|events| - 1]) + if last.ScalarEvent? then |Utf8.Bytes(last.text)| else 0
  }

  /** Collections started and not ended. */
  function Depth(events: seq<Event>): int
  {
    if events == [] then 0
    else
      var last := events[|events| - 1];
      Depth(events[..|events| - 1]) + if last.CollectionStart? then 1 else if last.CollectionEnd? then -1 else 0
  }

  function Documents(events: seq<Event>): nat
  {
    if events == [] then 0 else Documents(events[..|events| - 1]) + if events[|events| - 1].DocumentStart? then 1 else 0
  }

  /** The receiver's counters count the events, and stay within the limits as long as nothing was refused. */
  predicate Counts(s: State, events: seq<Event>, rules: Rules)
  {
    && s.nodes == Nodes(events) <= rules.maximumNodes && s.text == Texts(events) <= rules.maximumText
    && |s.stack| == Depth(events) <= rules.maximumDepth && s.documentCount == Documents(events)
    && (s.documentOpen ==> s.documentCount > 0)
  }

  lemma AttachKeepsCounts(s: State, n: Node, rules: Rules)
    ensures var t := AttachNode(s, n, rules);
            && t.nodes == s.nodes && t.text == s.text && |t.stack| == |s.stack|
            && t.documentCount == s.documentCount && t.documentOpen == s.documentOpen
  {
  }

  lemma StepCounts(s: State, front: seq<Event>, e: Event, rules: Rules)
    requires Counts(s, front, rules) && s.error.None? && Step(s, e, rules).error.None?
    ensures Counts(Step(s, e, rules), front + [e], rules)
  {
    hide AttachNode, Nodes, Texts, Depth, Documents;
    OneMoreEvent(front, e);
    if e.ScalarEvent? {
      AttachKeepsCounts(
        s.(nodes := s.nodes + 1, text := s.text + Utf8.TextBytes(e.text)),
        ScalarNode(Scalar(e.text, e.style, rules.resolve(e.text, e.style), e.at)), rules);
    } else if e.CollectionEnd? && s.stack != [] {
      var t, f := s.(stack := s.stack[..|s.stack| - 1]), s.stack[|s.stack| - 1];
      if f.SequenceFrame? { AttachKeepsCounts(t, Sequence(f.items, f.at), rules); }
      if f.MappingFrame? { AttachKeepsCounts(t, Mapping(f.entries, f.at), rules); }
    }
  }

  lemma OneMoreEvent(front: seq<Event>, e: Event)
    ensures Nodes(front + [e]) == Nodes(front) + if OpensNode(e) then 1 else 0
    ensures Texts(front + [e]) == Texts(front) + if e.ScalarEvent? then |Utf8.Bytes(e.text)| else 0
    ensures Depth(front + [e]) == Depth(front) + if e.CollectionStart? then 1 else if e.CollectionEnd? then -1 else 0
    ensures Documents(front + [e]) == Documents(front) + if e.DocumentStart? then 1 else 0
  {
    assert (front + [e])[..|front|] == front;
  }

  lemma RunSnoc(front: seq<Event>, e: Event, rules: Rules)
    ensures Run(INITIAL, front + [e], rules) == Step(Run(INITIAL, front, rules), e, rules)
  {
    hide Step;
    assert (front + [e])[..|front|] == front;
  }

  /** A receiver that has refused an event takes nothing more, and keeps its first error. */
  lemma FailedStays(s: State, e: Event, rules: Rules)
    requires s.error.Some?
    ensures var t := Step(s, e, rules);
            t.error == s.error && t.stack == s.stack && t.nodes == s.nodes && t.text == s.text && t.root == s.root
  {
  }

  lemma {:induction false} RunCounts(events: seq<Event>, rules: Rules)
    requires Run(INITIAL, events, rules).error.None?
    ensures Counts(Run(INITIAL, events, rules), events, rules)
    decreases |events|
  {
    hide Step, Counts;
    if events == [] {
      NothingCounted(rules);
    } else {
      var front, e := events[..|events| - 1], events[|events| - 1];
      assert events == front + [e];
      var s := Run(INITIAL, front, rules);
      if s.error.Some? {
        FailedStays(s, e, rules);
      } else {
        RunCounts(front, rules);
        StepCounts(s, front, e, rules);
      }
    }
  }

  lemma NothingCounted(rules: Rules)
    ensures Counts(INITIAL, [], rules)
  {
  }

  // ----- Refusals -----

  predicate Bare(e: Event)
    requires OpensNode(e)
  {
    e.anchor == 0 && !e.tagged
  }

  /** The collections around a node that this event completes: all open ones, or all but the one it ends. */
  function Around(s: State, e: Event): seq<Frame>
  {
    if e.CollectionEnd? && s.stack != [] then s.stack[..|s.stack| - 1] else s.stack
  }

  /** The event completes a node. */
  predicate Completes(s: State, front: seq<Event>, e: Event, rules: Rules)
  {
    || (e.ScalarEvent? && Bare(e) && Nodes(front) < rules.maximumNodes && Texts(front) + |Utf8.Bytes(e.text)| <= rules.maximumText)
    || (e.CollectionEnd? && s.stack != [] && Ends(s.stack[|s.stack| - 1], e.mapping) && !Dangles(s.stack[|s.stack| - 1]))
  }

  predicate Ends(f: Frame, mapping: bool)
  {
    f.MappingFrame? == mapping
  }

  /** A mapping with a key that still waits for its value. */
  predicate Dangles(f: Frame)
  {
    f.MappingFrame? && f.pending.Some?
  }

  /** The node that completes becomes the value of this key. */
  predicate ValueOf(s: State, e: Event, key: Node)
  {
    var around := Around(s, e);
    around != [] && around[|around| - 1].MappingFrame? && around[|around| - 1].pending == Some(key)
  }

  predicate KeyTaken(s: State, e: Event, key: Node, rules: Rules)
  {
    key.ScalarNode? && ValueOf(s, e, key) && rules.fold(key.scalar.text) in Around(s, e)[|Around(s, e)| - 1].seen
  }

  /** The reasons, event by event. */
  ghost predicate Refuses(s: State, front: seq<Event>, e: Event, rules: Rules, x: Error)
  {
    match x
    case TooManyNodes => OpensNode(e) && Nodes(front) == rules.maximumNodes
    case AliasOrAnchor => e.Alias? || (OpensNode(e) && Nodes(front) < rules.maximumNodes && e.anchor != 0)
    case ExplicitTag => OpensNode(e) && Nodes(front) < rules.maximumNodes && e.anchor == 0 && e.tagged
    case TooDeep => e.CollectionStart? && Bare(e) && Nodes(front) < rules.maximumNodes && Depth(front) == rules.maximumDepth
    case TooMuchText =>
      && e.ScalarEvent? && Bare(e) && Nodes(front) < rules.maximumNodes
      && Texts(front) + |Utf8.Bytes(e.text)| > rules.maximumText
    case UnmatchedEnd => e.CollectionEnd? && (Depth(front) == 0 || (s.stack != [] && !Ends(s.stack[|s.stack| - 1], e.mapping)))
    case MissingValue =>
      e.CollectionEnd? && s.stack != [] && Ends(s.stack[|s.stack| - 1], e.mapping) && Dangles(s.stack[|s.stack| - 1])
    case SecondDocument => e.DocumentStart? && Documents(front) > 0
    case KeyNotScalar => Completes(s, front, e, rules) && exists key: Node :: ValueOf(s, e, key) && !key.ScalarNode?
    case MergeKey =>
      Completes(s, front, e, rules) && exists key: Node :: ValueOf(s, e, key) && key.ScalarNode? && key.scalar.text == "<<"
    case DuplicateKey =>
      Completes(s, front, e, rules) && exists key: Node :: KeyTaken(s, e, key, rules) && key.scalar.text != "<<"
    case BadDocument =>
      || (e.DocumentEnd? && !s.documentOpen)
      || (Completes(s, front, e, rules) && Around(s, e) == [] && (!s.documentOpen || s.root.Some?))
    case InvalidSyntax => false
  }

  lemma AttachRefuses(s: State, around: seq<Frame>, n: Node, rules: Rules, x: Error)
    requires s.error.None? && around == s.stack
    ensures AttachNode(s, n, rules).error == Some(x) <==>
              if around == [] then x == BadDocument && (!s.documentOpen || s.root.Some?)
              else
                var f := around[|around| - 1];
                && f.MappingFrame? && f.pending.Some?
                && var key := f.pending.value;
                   if !key.ScalarNode? then x == KeyNotScalar
                   else if key.scalar.text == "<<" then x == MergeKey
                   else rules.fold(key.scalar.text) in f.seen && x == DuplicateKey
  {
  }

  lemma ScalarRefuses(s: State, front: seq<Event>, e: Event, rules: Rules, x: Error)
    requires e.ScalarEvent? && s.error.None? && Counts(s, front, rules)
    ensures Step(s, e, rules).error == Some(x) <==> Refuses(s, front, e, rules, x)
  {
    hide AttachNode, Nodes, Texts, Depth, Documents, Utf8.Bytes;
    var t := s.(nodes := s.nodes + 1, text := s.text + Utf8.TextBytes(e.text));
    AttachRefuses(t, s.stack, ScalarNode(Scalar(e.text, e.style, rules.resolve(e.text, e.style), e.at)), rules, x);
  }

  lemma EndRefuses(s: State, front: seq<Event>, e: Event, rules: Rules, x: Error)
    requires e.CollectionEnd? && s.error.None? && Counts(s, front, rules)
    ensures Step(s, e, rules).error == Some(x) <==> Refuses(s, front, e, rules, x)
  {
    hide AttachNode, Nodes, Texts, Depth, Documents, Utf8.Bytes;
    if s.stack != [] {
      var t, f := s.(stack := s.stack[..|s.stack| - 1]), s.stack[|s.stack| - 1];
      if f.SequenceFrame? {
        AttachRefuses(t, Around(s, e), Sequence(f.items, f.at), rules, x);
      } else {
        AttachRefuses(t, Around(s, e), Mapping(f.entries, f.at), rules, x);
      }
    }
  }

  lemma OtherRefuses(s: State, front: seq<Event>, e: Event, rules: Rules, x: Error)
    requires !e.ScalarEvent? && !e.CollectionEnd? && s.error.None? && Counts(s, front, rules)
    ensures Step(s, e, rules).error == Some(x) <==> Refuses(s, front, e, rules, x)
  {
    hide Nodes, Texts, Depth, Documents;
  }

  /** After a stream without refusals, the next event is refused exactly for one of the listed reasons. */
  lemma RefusesExactly(front: seq<Event>, e: Event, rules: Rules, x: Error)
    requires Run(INITIAL, front, rules).error.None?
    ensures Run(INITIAL, front + [e], rules).error == Some(x) <==> Refuses(Run(INITIAL, front, rules), front, e, rules, x)
  {
    hide Step, Refuses, Counts;
    var s := Run(INITIAL, front, rules);
    RunCounts(front, rules);
    RunSnoc(front, e, rules);
    if e.ScalarEvent? {
      ScalarRefuses(s, front, e, rules, x);
    } else if e.CollectionEnd? {
      EndRefuses(s, front, e, rules, x);
    } else {
      OtherRefuses(s, front, e, rules, x);
    }
  }

  ghost predicate FirstRefusal(events: seq<Event>, n: nat, rules: Rules, x: Error)
  {
    && n < |events| && Run(INITIAL, events[..n], rules).error.None?
    && Refuses(Run(INITIAL, events[..n], rules), events[..n], events[n], rules, x)
  }

  lemma {:induction false} ErrorHasCause(events: seq<Event>, rules: Rules) returns (n: nat)
    requires Run(INITIAL, events, rules).error.Some?
    ensures FirstRefusal(events, n, rules, Run(INITIAL, events, rules).error.value)
    decreases |events|
  {
    hide Step, Refuses;
    var front, e := events[..|events| - 1], events[|events| - 1];
    assert events == front + [e];
    var s := Run(INITIAL, front, rules);
    RunSnoc(front, e, rules);
    if s.error.Some? {
      n := ErrorHasCause(front, rules);
      FailedStays(s, e, rules);
      assert front[..n] == events[..n] && front[n] == events[n];
    } else {
      n := |front|;
      RefusesExactly(front, e, rules, Run(INITIAL, events, rules).error.value);
      assert events[..n] == front;
    }
  }

  lemma {:induction false} CauseIsKept(events: seq<Event>, n: nat, rules: Rules, x: Error)
    requires FirstRefusal(events, n, rules, x)
    ensures Run(INITIAL, events, rules).error == Some(x)
    decreases |events|
  {
    hide Step, Refuses;
    var front, e := events[..|events| - 1], events[|events| - 1];
    assert events == front + [e];
    RunSnoc(front, e, rules);
    if n == |front| {
      assert events[..n] == front;
      RefusesExactly(front, e, rules, x);
    } else {
      assert front[..n] == events[..n] && front[n] == events[n];
      CauseIsKept(front, n, rules, x);
      FailedStays(Run(INITIAL, front, rules), e, rules);
    }
  }

  /** A stream is refused with an error exactly for its first refusal; without one, because the tokenizer failed, or
      because the document is not closed or has no content. */
  lemma ParseFailsExactly(events: seq<Event>, tokenizerFailed: bool, rules: Rules, x: Error)
    ensures Parse(events, tokenizerFailed, rules) == Err(x) <==>
              || (exists n :: FirstRefusal(events, n, rules, x))
              || (&& Run(INITIAL, events, rules).error.None?
                  && var s := Run(INITIAL, events, rules);
                     if tokenizerFailed then x == InvalidSyntax
                     else x == BadDocument && (s.documentOpen || Depth(events) > 0 || s.root.None?))
  {
    hide Run, Refuses, Depth;
    var s := Run(INITIAL, events, rules);
    if s.error.Some? {
      var n := ErrorHasCause(events, rules);
    } else {
      RunCounts(events, rules);
    }
    if n :| FirstRefusal(events, n, rules, x) {
      CauseIsKept(events, n, rules, x);
    }
  }
}

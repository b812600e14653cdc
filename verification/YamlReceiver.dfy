/** Rebuilding a YAML tree from a flat stream of parser events under node, depth and text budgets
    (`Receiver` and `parse_yaml` in crates/automata-ci-action-actions/src/parser.rs). */
module YamlReceiver {

  import opened Text
  import Utf8

  datatype Style = Plain | SingleQuoted | DoubleQuoted | Literal | Folded

  datatype Kind = StringKind | NullKind | BooleanKind | IntegerKind | FloatKind

  datatype Location = Location(line: nat, column: nat)

  datatype Scalar = Scalar(text: string, style: Style, kind: Kind, at: Location)

  datatype Entry = Entry(key: Scalar, value: Node)

  datatype Node =
    | ScalarNode(scalar: Scalar)
    | Sequence(items: seq<Node>, at: Location)
    | Mapping(entries: seq<Entry>, at: Location)

  datatype Frame =
    | SequenceFrame(items: seq<Node>, at: Location)
    | MappingFrame(entries: seq<Entry>, pending: Option<Node>, seen: set<string>, at: Location)

  datatype Event =
    | Nothing | StreamStart | StreamEnd | DocumentStart | DocumentEnd | Alias
    | ScalarEvent(text: string, style: Style, anchor: nat, tagged: bool, at: Location)
    | CollectionStart(mapping: bool, anchor: nat, tagged: bool, at: Location)
    | CollectionEnd(mapping: bool)

  datatype Error =
    | TooManyNodes | TooDeep | TooMuchText | AliasOrAnchor | ExplicitTag | UnmatchedEnd | MissingValue
    | KeyNotScalar | MergeKey | DuplicateKey | SecondDocument | BadDocument | InvalidSyntax

  /** The limits, with the case folding of keys and the resolution of scalars. */
  datatype Rules = Rules(
    maximumNodes: nat, maximumDepth: nat, maximumText: nat, fold: string -> string, resolve: (string, Style) -> Kind)

  datatype State = State(
    documentOpen: bool, documentCount: nat, root: Option<Node>, stack: seq<Frame>, nodes: nat, text: nat,
    error: Option<Error>)

  const INITIAL := State(false, 0, None, [], 0, 0, None)

  // ----- One event -----

  function Fail(s: State, e: Error): State
  {
    if s.error.None? then s.(error := Some(e)) else s
  }

  function WithTop(s: State, f: Frame): State
    requires s.stack != []
  {
    s.(stack := s.stack[..|s.stack| - 1] + [f])
  }

  function AttachNode(s: State, node: Node, rules: Rules): State
  {
    if s.error.Some? then s
    else if s.stack == [] then
      if !s.documentOpen then Fail(s, BadDocument)
      else if s.root.Some? then Fail(s.(root := Some(node)), BadDocument)
      else s.(root := Some(node))
    else
      match s.stack[|s.stack| - 1]
      case SequenceFrame(items, at) => WithTop(s, SequenceFrame(items + [node], at))
      case MappingFrame(entries, None, seen, at) => WithTop(s, MappingFrame(entries, Some(node), seen, at))
      case MappingFrame(entries, Some(key), seen, at) =>
        var taken := WithTop(s, MappingFrame(entries, None, seen, at));
        if !key.ScalarNode? then Fail(taken, KeyNotScalar)
        else if key.scalar.text == "<<" then Fail(taken, MergeKey)
        else if rules.fold(key.scalar.text) in seen then Fail(taken, DuplicateKey)
        else WithTop(s, MappingFrame(entries + [Entry(key.scalar, node)], None, seen + {rules.fold(key.scalar.text)}, at))
  }

  /** Counts a node; the limit is a machine word, so a count that no longer fits one exceeds it too. */
  function Observe(s: State, rules: Rules): State
  {
    if s.error.Some? then s else
      var t := s.(nodes := s.nodes + 1);
      if t.nodes > rules.maximumNodes then Fail(t, TooManyNodes) else t
  }

  function Start(s: State, e: Event, rules: Rules): State
    requires e.CollectionStart?
  {
    var t := Observe(s, rules);
    if t.error.Some? then t
    else if e.anchor != 0 then Fail(t, AliasOrAnchor)
    else if e.tagged then Fail(t, ExplicitTag)
    else if |t.stack| + 1 > rules.maximumDepth then Fail(t, TooDeep)
    else t.(stack := t.stack + [if e.mapping then MappingFrame([], None, {}, e.at) else SequenceFrame([], e.at)])
  }

  function End(s: State, mapping: bool, rules: Rules): State
  {
    if s.error.Some? then s
    else if s.stack == [] then Fail(s, UnmatchedEnd)
    else
      var t := s.(stack := s.stack[..|s.stack| - 1]);
      match s.stack[|s.stack| - 1]
      case SequenceFrame(items, at) =>
        if mapping then Fail(t, UnmatchedEnd) else AttachNode(t, Sequence(items, at), rules)
      case MappingFrame(entries, pending, _, at) =>
        if !mapping then Fail(t, UnmatchedEnd)
        else if pending.Some? then Fail(t, MissingValue)
        else AttachNode(t, Mapping(entries, at), rules)
  }

  function AcceptScalar(s: State, e: Event, rules: Rules): State
    requires e.ScalarEvent?
  {
    var t := Observe(s, rules);
    if t.error.Some? then t
    else if e.anchor != 0 then Fail(t, AliasOrAnchor)
    else if e.tagged then Fail(t, ExplicitTag)
    else
      var u := t.(text := t.text + Utf8.TextBytes(e.text));
      if u.text > rules.maximumText then Fail(u, TooMuchText)
      else AttachNode(u, ScalarNode(Scalar(e.text, e.style, rules.resolve(e.text, e.style), e.at)), rules)
  }

  function Step(s: State, e: Event, rules: Rules): State
  {
    match e
    case Nothing => s
    case StreamStart => s
    case StreamEnd => s
    case DocumentStart =>
      if s.documentOpen || s.documentCount > 0 then Fail(s, SecondDocument)
      else s.(documentOpen := true, documentCount := 1)
    case DocumentEnd => if !s.documentOpen then Fail(s, BadDocument) else s.(documentOpen := false)
    case Alias => Fail(s, AliasOrAnchor)
    case ScalarEvent(_, _, _, _, _) => AcceptScalar(s, e, rules)
    case CollectionStart(_, _, _, _) => Start(s, e, rules)
    case CollectionEnd(mapping) => End(s, mapping, rules)
  }

  function Run(s: State, events: seq<Event>, rules: Rules): State
    decreases |events|
  {
    if events == [] then s else Step(Run(s, events[..|events| - 1], rules), events[|events| - 1], rules)
  }

  lemma {:induction false} RunConcat(s: State, a: seq<Event>, b: seq<Event>, rules: Rules)
    ensures Run(s, a + b, rules) == Run(Run(s, a, rules), b, rules)
    decreases |b|
  {
    hide Step;
    if b == [] {
      assert a + b == a;
    } else {
      assert (a + b)[..|a + b| - 1] == a + b[..|b| - 1];
      RunConcat(s, a, b[..|b| - 1], rules);
    }
  }

  lemma RunOne(s: State, e: Event, rules: Rules)
    ensures Run(s, [e], rules) == Step(s, e, rules)
  {
    hide Step;
    assert [e][..0] == [];
  }

  /** `parse_yaml` over the events of the tokenizer. */
  function Parse(events: seq<Event>, tokenizerFailed: bool, rules: Rules): Result<Node, Error>
  {
    var s := Run(INITIAL, events, rules);
    if s.error.Some? then Err(s.error.value)
    else if tokenizerFailed then Err(InvalidSyntax)
    else if s.documentOpen || s.stack != [] then Err(BadDocument)
    else if s.root.Some? then Ok(s.root.value)
    else Err(BadDocument)
  }

  // ----- The receiver as an object -----

  class Receiver {
    const rules: Rules
    var documentOpen: bool
    var documentCount: nat
    var root: Option<Node>
    var stack: seq<Frame>
    var nodes: nat
    var decodedText: nat
    var error: Option<Error>

    function Value(): State
      reads this
    {
      State(documentOpen, documentCount, root, stack, nodes, decodedText, error)
    }

    constructor (rules: Rules)
      ensures this.rules == rules && Value() == INITIAL
    {
      this.rules := rules;
      documentOpen, documentCount, root, stack, nodes, decodedText, error := false, 0, None, [], 0, 0, None;
    }

    method RecordError(e: Error)
      modifies this
      ensures Value() == Fail(old(Value()), e)
    {
      if error.None? {
        error := Some(e);
      }
    }

    method ObserveNode() returns (ok: bool)
      modifies this
      ensures Value() == Observe(old(Value()), rules) && ok == Value().error.None?
    {
      if error.Some? {
        return false;
      }
      nodes := nodes + 1;
      if nodes > rules.maximumNodes {
        RecordError(TooManyNodes);
        return false;
      }
      return true;
    }

    method StartCollection(e: Event)
      requires e.CollectionStart?
      modifies this
      ensures Value() == Start(old(Value()), e, rules)
    {
      var ok := ObserveNode();
      if !ok {
        return;
      }
      if e.anchor != 0 {
        RecordError(AliasOrAnchor);
        return;
      }
      if e.tagged {
        RecordError(ExplicitTag);
        return;
      }
      if |stack| + 1 > rules.maximumDepth {
        RecordError(TooDeep);
        return;
      }
      stack := stack + [if e.mapping then MappingFrame([], None, {}, e.at) else SequenceFrame([], e.at)];
    }

    method Attach(node: Node)
      modifies this
      ensures Value() == AttachNode(old(Value()), node, rules)
    {
      if error.Some? {
        return;
      }
      if stack != [] {
        var last := |stack| - 1;
        match stack[last] {
          case SequenceFrame(items, at) =>
            stack := stack[..last] + [SequenceFrame(items + [node], at)];
          case MappingFrame(entries, pending, seen, at) =>
            if pending.None? {
              stack := stack[..last] + [MappingFrame(entries, Some(node), seen, at)];
              return;
            }
            stack := stack[..last] + [MappingFrame(entries, None, seen, at)];
            if !pending.value.ScalarNode? {
              RecordError(KeyNotScalar);
              return;
            }
            var key := pending.value.scalar;
            if key.text == "<<" {
              RecordError(MergeKey);
              return;
            }
            if rules.fold(key.text) in seen {
              RecordError(DuplicateKey);
              return;
            }
            stack := stack[..last] + [MappingFrame(entries + [Entry(key, node)], None, seen + {rules.fold(key.text)}, at)];
        }
        return;
      }
      if !documentOpen {
        RecordError(BadDocument);
        return;
      }
      var previous := root;
      root := Some(node);
      if previous.Some? {
        RecordError(BadDocument);
      }
    }

    method EndCollection(mapping: bool)
      modifies this
      ensures Value() == End(old(Value()), mapping, rules)
    {
      if error.Some? {
        return;
      }
      if stack == [] {
        RecordError(UnmatchedEnd);
        return;
      }
      var frame := stack[|stack| - 1];
      stack := stack[..|stack| - 1];
      if frame.SequenceFrame? && !mapping {
        Attach(Sequence(frame.items, frame.at));
      } else if frame.MappingFrame? && mapping && frame.pending.None? {
        Attach(Mapping(frame.entries, frame.at));
      } else if frame.MappingFrame? && mapping {
        RecordError(MissingValue);
      } else {
        RecordError(UnmatchedEnd);
      }
    }

    method ReceiveScalar(e: Event)
      requires e.ScalarEvent?
      modifies this
      ensures Value() == AcceptScalar(old(Value()), e, rules)
    {
      var ok := ObserveNode();
      if !ok {
        return;
      }
      if e.anchor != 0 {
        RecordError(AliasOrAnchor);
        return;
      }
      if e.tagged {
        RecordError(ExplicitTag);
        return;
      }
      decodedText := decodedText + Utf8.TextBytes(e.text);
      if decodedText > rules.maximumText {
        RecordError(TooMuchText);
        return;
      }
      Attach(ScalarNode(Scalar(e.text, e.style, rules.resolve(e.text, e.style), e.at)));
    }

    method OnEvent(e: Event)
      modifies this
      ensures Value() == Step(old(Value()), e, rules)
    {
      hide AcceptScalar, Start, End;
      match e {
        case Nothing =>
        case StreamStart =>
        case StreamEnd =>
        case DocumentStart =>
          if documentOpen || documentCount > 0 {
            RecordError(SecondDocument);
            return;
          }
          documentOpen := true;
          documentCount := 1;
        case DocumentEnd =>
          if !documentOpen {
            RecordError(BadDocument);
            return;
          }
          documentOpen := false;
        case Alias => RecordError(AliasOrAnchor);
        case ScalarEvent(_, _, _, _, _) => ReceiveScalar(e);
        case CollectionStart(_, _, _, _) => StartCollection(e);
        case CollectionEnd(mapping) => EndCollection(mapping);
      }
    }
  }

  // ----- Trees as event lists -----

  function ScalarOf(s: Scalar): Event
  {
    ScalarEvent(s.text, s.style, 0, false, s.at)
  }

  /** The events of a tree: nothing but its scalars and the starts and ends of its collections. */
  function Flatten(n: Node): seq<Event>
    decreases n
  {
    match n
    case ScalarNode(s) => [ScalarOf(s)]
    case Sequence(items, at) => [CollectionStart(false, 0, false, at)] + FlattenItems(items) + [CollectionEnd(false)]
    case Mapping(entries, at) => [CollectionStart(true, 0, false, at)] + FlattenEntries(entries) + [CollectionEnd(true)]
  }

  function FlattenItems(items: seq<Node>): seq<Event>
    decreases items
  {
    if items == [] then [] else FlattenItems(items[..|items| - 1]) + Flatten(items[|items| - 1])
  }

  function FlattenEntries(entries: seq<Entry>): seq<Event>
    decreases entries
  {
    if entries == [] then [] else FlattenEntries(entries[..|entries| - 1]) + FlattenEntry(entries[|entries| - 1])
  }

  function FlattenEntry(e: Entry): seq<Event>
    decreases e
  {
    [ScalarOf(e.key)] + Flatten(e.value)
  }

  /** Nodes of a tree: scalars, keys included, and collections. */
  function Count(n: Node): (c: nat)
    ensures c >= 1
    decreases n
  {
    match n
    case ScalarNode(_) => 1
    case Sequence(items, _) => 1 + CountItems(items)
    case Mapping(entries, _) => 1 + CountEntries(entries)
  }

  function CountItems(items: seq<Node>): nat
    decreases items
  {
    if items == [] then 0 else CountItems(items[..|items| - 1]) + Count(items[|items| - 1])
  }

  function CountEntries(entries: seq<Entry>): nat
    decreases entries
  {
    if entries == [] then 0 else CountEntries(entries[..|entries| - 1]) + CountEntry(entries[|entries| - 1])
  }

  function CountEntry(e: Entry): (c: nat)
    ensures c >= 1
    decreases e
  {
    1 + Count(e.value)
  }

  /** Bytes of all scalar texts of a tree. */
  function Weight(n: Node): nat
    decreases n
  {
    match n
    case ScalarNode(s) => Utf8.TextBytes(s.text)
    case Sequence(items, _) => WeightItems(items)
    case Mapping(entries, _) => WeightEntries(entries)
  }

  function WeightItems(items: seq<Node>): nat
    decreases items
  {
    if items == [] then 0 else WeightItems(items[..|items| - 1]) + Weight(items[|items| - 1])
  }

  function WeightEntries(entries: seq<Entry>): nat
    decreases entries
  {
    if entries == [] then 0 else WeightEntries(entries[..|entries| - 1]) + WeightEntry(entries[|entries| - 1])
  }

  function WeightEntry(e: Entry): nat
    decreases e
  {
    Utf8.TextBytes(e.key.text) + Weight(e.value)
  }

  predicate GoodScalar(s: Scalar, rules: Rules)
  {
    s.kind == rules.resolve(s.text, s.style)
  }

  predicate GoodKeys(entries: seq<Entry>, rules: Rules)
  {
    && (forall i :: 0 <= i < |entries| ==> GoodScalar(entries[i].key, rules) && entries[i].key.text != "<<")
    && forall i, j :: 0 <= i < j < |entries| ==> rules.fold(entries[i].key.text) != rules.fold(entries[j].key.text)
  }

  /** Nested at most `d` deep, with resolved scalars and fold-distinct keys other than the merge key. */
  predicate Nested(n: Node, rules: Rules, d: int)
    decreases n
  {
    match n
    case ScalarNode(s) => GoodScalar(s, rules)
    case Sequence(items, _) => d >= 1 && NestedItems(items, rules, d - 1)
    case Mapping(entries, _) => d >= 1 && NestedEntries(entries, rules, d - 1) && GoodKeys(entries, rules)
  }

  predicate NestedItems(items: seq<Node>, rules: Rules, d: int)
    decreases items
  {
    items == [] || (NestedItems(items[..|items| - 1], rules, d) && Nested(items[|items| - 1], rules, d))
  }

  predicate NestedEntries(entries: seq<Entry>, rules: Rules, d: int)
    decreases entries
  {
    entries == [] || (NestedEntries(entries[..|entries| - 1], rules, d) && NestedEntry(entries[|entries| - 1], rules, d))
  }

  predicate NestedEntry(e: Entry, rules: Rules, d: int)
    decreases e
  {
    Nested(e.value, rules, d)
  }

  /** A tree the limits and key rules allow. */
  predicate Fits(n: Node, rules: Rules)
  {
    && Nested(n, rules, rules.maximumDepth)
    && Count(n) <= rules.maximumNodes
    && Weight(n) <= rules.maximumText
  }

  // ----- Completeness: a tree that fits is rebuilt from its events -----

  lemma StartAccepted(s: State, mapping: bool, at: Location, rules: Rules)
    requires s.error.None? && s.nodes < rules.maximumNodes && |s.stack| < rules.maximumDepth
    ensures Run(s, [CollectionStart(mapping, 0, false, at)], rules) ==
              s.(nodes := s.nodes + 1, stack := s.stack + [if mapping then MappingFrame([], None, {}, at) else SequenceFrame([], at)])
  {
    RunOne(s, CollectionStart(mapping, 0, false, at), rules);
  }

  lemma EndAccepted(s: State, f: Frame, rules: Rules)
    requires s.error.None? && (f.MappingFrame? ==> f.pending.None?)
    ensures Run(s.(stack := s.stack + [f]), [CollectionEnd(f.MappingFrame?)], rules) ==
              AttachNode(s, if f.MappingFrame? then Mapping(f.entries, f.at) else Sequence(f.items, f.at), rules)
  {
    hide AttachNode;
    RunOne(s.(stack := s.stack + [f]), CollectionEnd(f.MappingFrame?), rules);
    assert (s.stack + [f])[..|s.stack|] == s.stack;
  }

  lemma {:induction false} Build(s: State, n: Node, rules: Rules)
    requires s.error.None? && Nested(n, rules, rules.maximumDepth - |s.stack|)
    requires s.nodes + Count(n) <= rules.maximumNodes && s.text + Weight(n) <= rules.maximumText
    ensures Run(s, Flatten(n), rules) == AttachNode(s.(nodes := s.nodes + Count(n), text := s.text + Weight(n)), n, rules)
    decreases Count(n), 0
  {
    hide Run, AttachNode, Utf8.TextBytes, GoodKeys, Folds;
    match n {
      case ScalarNode(scalar) =>
        RunOne(s, ScalarOf(scalar), rules);
      case Sequence(items, at) =>
        var start, body, end := [CollectionStart(false, 0, false, at)], FlattenItems(items), [CollectionEnd(false)];
        RunConcat(s, start + body, end, rules);
        RunConcat(s, start, body, rules);
        StartAccepted(s, false, at, rules);
        BuildItems(s.(nodes := s.nodes + 1), items, at, rules);
        EndAccepted(s.(nodes := s.nodes + Count(n), text := s.text + Weight(n)), SequenceFrame(items, at), rules);
      case Mapping(entries, at) =>
        var start, body, end := [CollectionStart(true, 0, false, at)], FlattenEntries(entries), [CollectionEnd(true)];
        RunConcat(s, start + body, end, rules);
        RunConcat(s, start, body, rules);
        StartAccepted(s, true, at, rules);
        NoFolds(rules);
        BuildEntries(s.(nodes := s.nodes + 1), entries, at, rules);
        EndAccepted(s.(nodes := s.nodes + Count(n), text := s.text + Weight(n)),
                    MappingFrame(entries, None, Folds(entries, rules), at), rules);
    }
  }

  lemma NoFolds(rules: Rules)
    ensures Folds([], rules) == {}
  {
  }

  /** `s` with an open sequence on top, after some items. */
  function InSequence(s: State, items: seq<Node>, at: Location): State
  {
    s.(stack := s.stack + [SequenceFrame(items, at)], nodes := s.nodes + CountItems(items), text := s.text + WeightItems(items))
  }

  lemma {:induction false} BuildItems(s: State, items: seq<Node>, at: Location, rules: Rules)
    requires s.error.None? && NestedItems(items, rules, rules.maximumDepth - |s.stack| - 1)
    requires s.nodes + CountItems(items) <= rules.maximumNodes && s.text + WeightItems(items) <= rules.maximumText
    ensures Run(InSequence(s, [], at), FlattenItems(items), rules) == InSequence(s, items, at)
    decreases CountItems(items), 1
  {
    hide Step, Nested, Flatten, Count, Weight;
    if items != [] {
      var front, last := items[..|items| - 1], items[|items| - 1];
      BuildItems(s, front, at, rules);
      RunConcat(InSequence(s, [], at), FlattenItems(front), Flatten(last), rules);
      Build(InSequence(s, front, at), last, rules);
      assert items == front + [last];
    }
  }

  function Folds(entries: seq<Entry>, rules: Rules): set<string>
  {
    set i | 0 <= i < |entries| :: rules.fold(entries[i].key.text)
  }

  function InMapping(s: State, entries: seq<Entry>, at: Location, rules: Rules): State
  {
    s.(stack := s.stack + [MappingFrame(entries, None, Folds(entries, rules), at)],
       nodes := s.nodes + CountEntries(entries), text := s.text + WeightEntries(entries))
  }

  lemma GoodKeysSnoc(front: seq<Entry>, last: Entry, rules: Rules)
    ensures GoodKeys(front + [last], rules) <==>
              && GoodKeys(front, rules) && GoodScalar(last.key, rules) && last.key.text != "<<"
              && rules.fold(last.key.text) !in Folds(front, rules)
    ensures Folds(front + [last], rules) == Folds(front, rules) + {rules.fold(last.key.text)}
  {
    hide GoodScalar;
    var all := front + [last];
    assert (forall i :: 0 <= i < |front| ==> all[i] == front[i]) && all[|front|] == last;
  }

  lemma {:induction false} BuildEntries(s: State, entries: seq<Entry>, at: Location, rules: Rules)
    requires s.error.None? && NestedEntries(entries, rules, rules.maximumDepth - |s.stack| - 1) && GoodKeys(entries, rules)
    requires s.nodes + CountEntries(entries) <= rules.maximumNodes && s.text + WeightEntries(entries) <= rules.maximumText
    ensures Run(InMapping(s, [], at, rules), FlattenEntries(entries), rules) == InMapping(s, entries, at, rules)
    decreases CountEntries(entries), 2
  {
    hide NestedEntry, FlattenEntry, CountEntry, WeightEntry, Run, GoodKeys, Folds, InMapping;
    if entries == [] {
      RunNothing(InMapping(s, [], at, rules), rules);
    } else {
      var front, last := entries[..|entries| - 1], entries[|entries| - 1];
      assert entries == front + [last];
      GoodKeysSnoc(front, last, rules);
      BuildEntries(s, front, at, rules);
      RunConcat(InMapping(s, [], at, rules), FlattenEntries(front), FlattenEntry(last), rules);
      BuildEntry(s, front, last, at, rules);
    }
  }

  lemma {:induction false} BuildEntry(s: State, front: seq<Entry>, last: Entry, at: Location, rules: Rules)
    requires s.error.None? && NestedEntry(last, rules, rules.maximumDepth - |s.stack| - 1) && GoodKeys(front + [last], rules)
    requires s.nodes + CountEntries(front) + CountEntry(last) <= rules.maximumNodes
    requires s.text + WeightEntries(front) + WeightEntry(last) <= rules.maximumText
    ensures Run(InMapping(s, front, at, rules), FlattenEntry(last), rules) == InMapping(s, front + [last], at, rules)
    decreases CountEntry(last), 1
  {
    hide Nested, Flatten, Count, Weight, Run, GoodKeys, Folds, Utf8.TextBytes, Step, AttachNode, InMapping, CountEntries, WeightEntries;
    GoodKeysSnoc(front, last, rules);
    var key := ScalarOf(last.key);
    RunConcat(InMapping(s, front, at, rules), [key], Flatten(last.value), rules);
    RunOne(InMapping(s, front, at, rules), key, rules);
    KeyAccepted(s, front, last, at, rules);
    Build(AfterKey(s, front, last, at, rules), last.value, rules);
    ValueAccepted(s, front, last, at, rules);
  }

  lemma RunNothing(s: State, rules: Rules)
    ensures Run(s, [], rules) == s
  {
  }

  /** With the last entry's key read and its value still to come. */
  function AfterKey(s: State, front: seq<Entry>, last: Entry, at: Location, rules: Rules): State
  {
    s.(stack := s.stack + [MappingFrame(front, Some(ScalarNode(last.key)), Folds(front, rules), at)],
       nodes := s.nodes + CountEntries(front) + 1, text := s.text + WeightEntries(front) + Utf8.TextBytes(last.key.text))
  }

  lemma KeyAccepted(s: State, front: seq<Entry>, last: Entry, at: Location, rules: Rules)
    requires s.error.None? && GoodScalar(last.key, rules)
    requires s.nodes + CountEntries(front) + 1 <= rules.maximumNodes
    requires s.text + WeightEntries(front) + Utf8.TextBytes(last.key.text) <= rules.maximumText
    ensures Step(InMapping(s, front, at, rules), ScalarOf(last.key), rules) == AfterKey(s, front, last, at, rules)
  {
    hide CountEntries, WeightEntries, Utf8.TextBytes, Folds;
  }

  lemma ValueAccepted(s: State, front: seq<Entry>, last: Entry, at: Location, rules: Rules)
    requires s.error.None? && last.key.text != "<<" && rules.fold(last.key.text) !in Folds(front, rules)
    ensures var t := AfterKey(s, front, last, at, rules);
            AttachNode(t.(nodes := t.nodes + Count(last.value), text := t.text + Weight(last.value)), last.value, rules)
            == InMapping(s, front + [last], at, rules)
  {
    hide Utf8.TextBytes, Folds, Count, Weight;
    GoodKeysSnoc(front, last, rules);
    assert (front + [last])[..|front|] == front;
    assert Entry(last.key, last.value) == last;
    assert CountEntry(last) == 1 + Count(last.value) && WeightEntry(last) == Utf8.TextBytes(last.key.text) + Weight(last.value);
  }

  // ----- Soundness: an accepted run is the events of its tree -----

  predicate IsNodeEvent(e: Event)
  {
    e.Alias? || e.ScalarEvent? || e.CollectionStart? || e.CollectionEnd?
  }

  /** What is left of a run without its stream and document markers. */
  function NodeEvents(events: seq<Event>): seq<Event>
  {
    if events == [] then [] else
      NodeEvents(events[..|events| - 1]) + if IsNodeEvent(events[|events| - 1]) then [events[|events| - 1]] else []
  }

  function CountEvents(events: seq<Event>): nat
  {
    if events == [] then 0 else
      var last := events[|events| - 1];
      CountEvents(events[..|events| - 1]) + if last.ScalarEvent? || last.CollectionStart? then 1 else 0
  }

  function WeightEvents(events: seq<Event>): nat
  {
    if events == [] then 0 else
      var last := events[|events| - 1];
      WeightEvents(events[..|events| - 1]) + if last.ScalarEvent? then Utf8.TextBytes(last.text) else 0
  }

  lemma {:induction false} MeasureConcat(a: seq<Event>, b: seq<Event>)
    ensures CountEvents(a + b) == CountEvents(a) + CountEvents(b)
    ensures WeightEvents(a + b) == WeightEvents(a) + WeightEvents(b)
    decreases |b|
  {
    hide Utf8.TextBytes;
    if b == [] {
      assert a + b == a;
    } else {
      assert (a + b)[..|a + b| - 1] == a + b[..|b| - 1];
      MeasureConcat(a, b[..|b| - 1]);
    }
  }

  lemma MeasureOne(e: Event)
    ensures CountEvents([e]) == (if e.ScalarEvent? || e.CollectionStart? then 1 else 0)
    ensures WeightEvents([e]) == (if e.ScalarEvent? then Utf8.TextBytes(e.text) else 0)
  {
    hide Utf8.TextBytes;
    assert [e][..0] == [];
  }

  /** A tree's events have as many nodes and as much text as the tree. */
  lemma {:induction false} MeasureFlatten(n: Node)
    ensures CountEvents(Flatten(n)) == Count(n) && WeightEvents(Flatten(n)) == Weight(n)
    decreases Count(n), 0
  {
    hide CountEvents, WeightEvents, Utf8.TextBytes;
    match n {
      case ScalarNode(s) =>
        MeasureOne(ScalarOf(s));
      case Sequence(items, at) =>
        var start, body, end := CollectionStart(false, 0, false, at), FlattenItems(items), CollectionEnd(false);
        MeasureConcat([start] + body, [end]);
        MeasureConcat([start], body);
        MeasureOne(start);
        MeasureOne(end);
        MeasureItems(items);
      case Mapping(entries, at) =>
        var start, body, end := CollectionStart(true, 0, false, at), FlattenEntries(entries), CollectionEnd(true);
        MeasureConcat([start] + body, [end]);
        MeasureConcat([start], body);
        MeasureOne(start);
        MeasureOne(end);
        MeasureEntries(entries);
    }
  }

  lemma {:induction false} MeasureItems(items: seq<Node>)
    ensures CountEvents(FlattenItems(items)) == CountItems(items) && WeightEvents(FlattenItems(items)) == WeightItems(items)
    decreases CountItems(items), 1
  {
    hide Flatten, Count, Weight, Utf8.TextBytes;
    if items != [] {
      MeasureItems(items[..|items| - 1]);
      MeasureFlatten(items[|items| - 1]);
      MeasureConcat(FlattenItems(items[..|items| - 1]), Flatten(items[|items| - 1]));
    }
  }

  lemma {:induction false} MeasureEntries(entries: seq<Entry>)
    ensures CountEvents(FlattenEntries(entries)) == CountEntries(entries)
    ensures WeightEvents(FlattenEntries(entries)) == WeightEntries(entries)
    decreases CountEntries(entries), 1
  {
    hide Flatten, Count, Weight, Utf8.TextBytes;
    if entries != [] {
      var front, last := entries[..|entries| - 1], entries[|entries| - 1];
      assert CountEntry(last) == 1 + Count(last.value) && WeightEntry(last) == Utf8.TextBytes(last.key.text) + Weight(last.value);
      MeasureEntries(front);
      MeasureFlatten(last.value);
      MeasureOne(ScalarOf(last.key));
      MeasureConcat(FlattenEntries(front), FlattenEntry(last));
      MeasureConcat([ScalarOf(last.key)], Flatten(last.value));
    }
  }

  function FlattenMaybe(n: Option<Node>): seq<Event>
  {
    if n.Some? then Flatten(n.value) else []
  }

  function FlattenFrame(f: Frame): seq<Event>
  {
    match f
    case SequenceFrame(items, at) => [CollectionStart(false, 0, false, at)] + FlattenItems(items)
    case MappingFrame(entries, pending, _, at) =>
      [CollectionStart(true, 0, false, at)] + FlattenEntries(entries) + FlattenMaybe(pending)
  }

  function FlattenStack(stack: seq<Frame>): seq<Event>
  {
    if stack == [] then [] else FlattenStack(stack[..|stack| - 1]) + FlattenFrame(stack[|stack| - 1])
  }

  /** The events a state still stands for. */
  function Held(s: State): seq<Event>
  {
    FlattenMaybe(s.root) + FlattenStack(s.stack)
  }

  predicate GoodFrame(f: Frame, rules: Rules, d: int)
  {
    match f
    case SequenceFrame(items, _) => NestedItems(items, rules, d)
    case MappingFrame(entries, pending, seen, _) =>
      && NestedEntries(entries, rules, d) && GoodKeys(entries, rules) && seen == Folds(entries, rules)
      && (pending.Some? ==> Nested(pending.value, rules, d))
  }

  predicate GoodStack(stack: seq<Frame>, rules: Rules)
  {
    && |stack| <= rules.maximumDepth
    && forall i :: 0 <= i < |stack| ==> GoodFrame(stack[i], rules, rules.maximumDepth - i - 1)
  }

  predicate GoodTree(s: State, rules: Rules)
  {
    GoodStack(s.stack, rules) && (s.root.Some? ==> Nested(s.root.value, rules, rules.maximumDepth))
  }

  lemma GoodStackPush(below: seq<Frame>, f: Frame, rules: Rules)
    ensures GoodStack(below + [f], rules) <==>
              GoodStack(below, rules) && |below| < rules.maximumDepth && GoodFrame(f, rules, rules.maximumDepth - |below| - 1)
  {
    hide GoodFrame;
    var all := below + [f];
    assert (forall i :: 0 <= i < |below| ==> all[i] == below[i]) && all[|below|] == f;
  }

  /** Attaching a node without error appends its events and keeps everything well nested. */
  lemma AttachSound(s: State, node: Node, rules: Rules)
    requires s.error.None? && GoodTree(s, rules) && Nested(node, rules, rules.maximumDepth - |s.stack|)
    requires AttachNode(s, node, rules).error.None?
    ensures GoodTree(AttachNode(s, node, rules), rules)
    ensures Held(AttachNode(s, node, rules)) == Held(s) + Flatten(node)
    ensures |AttachNode(s, node, rules).stack| == |s.stack|
  {
    hide Nested, Flatten, GoodFrame, GoodStack, FlattenFrame, FlattenStack, Folds;
    if s.stack == [] {
      AttachRoot(s, node, rules);
    } else {
      hide Held, AttachNode;
      var k := |s.stack| - 1;
      var t := AttachNode(s, node, rules);
      var base, f := s.(stack := s.stack[..k]), s.stack[k];
      assert s.stack == base.stack + [f];
      GoodStackPush(base.stack, f, rules);
      FrameAttach(s, node, rules);
      var g := t.stack[k];
      GoodStackPush(base.stack, g, rules);
      HeldPush(base, f);
      HeldPush(base, g);
      assert s == base.(stack := base.stack + [f]);
      assert t == base.(stack := base.stack + [g]);
      assert Held(base) + (FlattenFrame(f) + Flatten(node)) == Held(base) + FlattenFrame(f) + Flatten(node);
    }
  }

  lemma AttachRoot(s: State, node: Node, rules: Rules)
    requires s.error.None? && s.stack == [] && AttachNode(s, node, rules).error.None?
    ensures AttachNode(s, node, rules) == s.(root := Some(node)) && s.root.None?
    ensures Held(AttachNode(s, node, rules)) == Held(s) + Flatten(node)
  {
    hide Flatten;
    assert Flatten(node) + [] == [] + [] + Flatten(node);
  }

  /** The same for the frame on top. */
  lemma FrameAttach(s: State, node: Node, rules: Rules)
    requires s.error.None? && s.stack != [] && AttachNode(s, node, rules).error.None?
    requires Nested(node, rules, rules.maximumDepth - |s.stack|)
    requires GoodFrame(s.stack[|s.stack| - 1], rules, rules.maximumDepth - |s.stack|)
    ensures var t := AttachNode(s, node, rules);
            && |t.stack| == |s.stack|
            && t == s.(stack := s.stack[..|s.stack| - 1] + [t.stack[|s.stack| - 1]])
            && FlattenFrame(t.stack[|s.stack| - 1]) == FlattenFrame(s.stack[|s.stack| - 1]) + Flatten(node)
            && GoodFrame(t.stack[|s.stack| - 1], rules, rules.maximumDepth - |s.stack|)
  {
    hide Nested, Flatten, GoodFrame, FlattenFrame, Folds;
    var d, f := rules.maximumDepth - |s.stack|, s.stack[|s.stack| - 1];
    match f {
      case SequenceFrame(items, at) => ItemHeld(f, node, rules, d);
      case MappingFrame(entries, None, seen, at) => KeyHeld(f, node, rules, d);
      case MappingFrame(entries, Some(key), seen, at) =>
        SeenAreFolds(f, rules, d);
        ValueHeld(f, key.scalar, node, rules, d);
    }
  }

  lemma SeenAreFolds(f: Frame, rules: Rules, d: int)
    requires f.MappingFrame? && GoodFrame(f, rules, d)
    ensures f.seen == Folds(f.entries, rules)
  {
  }

  lemma ItemHeld(f: Frame, node: Node, rules: Rules, d: int)
    requires f.SequenceFrame? && GoodFrame(f, rules, d) && Nested(node, rules, d)
    ensures var g := SequenceFrame(f.items + [node], f.at);
            FlattenFrame(g) == FlattenFrame(f) + Flatten(node) && GoodFrame(g, rules, d)
  {
    hide Nested, Flatten, NestedItems, FlattenItems;
    ItemsSnoc(f.items, node, rules, d);
    var start := [CollectionStart(false, 0, false, f.at)];
    assert start + (FlattenItems(f.items) + Flatten(node)) == start + FlattenItems(f.items) + Flatten(node);
  }

  lemma KeyHeld(f: Frame, node: Node, rules: Rules, d: int)
    requires f.MappingFrame? && f.pending.None? && GoodFrame(f, rules, d) && Nested(node, rules, d)
    ensures var g := MappingFrame(f.entries, Some(node), f.seen, f.at);
            FlattenFrame(g) == FlattenFrame(f) + Flatten(node) && GoodFrame(g, rules, d)
  {
    hide Nested, Flatten, NestedEntries, FlattenEntries, GoodKeys, Folds;
    var head := [CollectionStart(true, 0, false, f.at)] + FlattenEntries(f.entries);
    assert head + [] + Flatten(node) == head + Flatten(node);
  }

  lemma ValueHeld(f: Frame, key: Scalar, node: Node, rules: Rules, d: int)
    requires f.MappingFrame? && f.pending == Some(ScalarNode(key)) && GoodFrame(f, rules, d) && Nested(node, rules, d)
    requires key.text != "<<" && rules.fold(key.text) !in f.seen
    ensures var g := MappingFrame(f.entries + [Entry(key, node)], None, f.seen + {rules.fold(key.text)}, f.at);
            FlattenFrame(g) == FlattenFrame(f) + Flatten(node) && GoodFrame(g, rules, d)
  {
    hide Nested, Flatten, NestedEntries, FlattenEntries, GoodKeys, Folds;
    ScalarFacts(key, rules, d);
    EntriesSnoc(f.entries, Entry(key, node), rules, d);
    GoodKeysSnoc(f.entries, Entry(key, node), rules);
    var head, flat := [CollectionStart(true, 0, false, f.at)], FlattenEntries(f.entries);
    assert head + (flat + ([ScalarOf(key)] + Flatten(node))) + [] == head + flat + [ScalarOf(key)] + Flatten(node);
  }

  lemma ScalarFacts(key: Scalar, rules: Rules, d: int)
    ensures Flatten(ScalarNode(key)) == [ScalarOf(key)]
    ensures Nested(ScalarNode(key), rules, d) <==> GoodScalar(key, rules)
  {
  }

  lemma ItemsSnoc(items: seq<Node>, node: Node, rules: Rules, d: int)
    ensures FlattenItems(items + [node]) == FlattenItems(items) + Flatten(node)
    ensures NestedItems(items + [node], rules, d) <==> NestedItems(items, rules, d) && Nested(node, rules, d)
  {
    hide Nested, Flatten;
    assert (items + [node])[..|items|] == items;
  }

  lemma EntriesSnoc(entries: seq<Entry>, e: Entry, rules: Rules, d: int)
    ensures FlattenEntries(entries + [e]) == FlattenEntries(entries) + FlattenEntry(e)
    ensures NestedEntries(entries + [e], rules, d) <==> NestedEntries(entries, rules, d) && Nested(e.value, rules, d)
  {
    hide Nested, Flatten;
    assert (entries + [e])[..|entries|] == entries;
  }

  lemma HeldPush(s: State, f: Frame)
    ensures Held(s.(stack := s.stack + [f])) == Held(s) + FlattenFrame(f)
  {
    hide FlattenFrame, Flatten;
    assert (s.stack + [f])[..|s.stack|] == s.stack;
    assert FlattenMaybe(s.root) + (FlattenStack(s.stack) + FlattenFrame(f))
           == FlattenMaybe(s.root) + FlattenStack(s.stack) + FlattenFrame(f);
  }

  /** A node event without error appends itself to what the state holds. */
  lemma NodeEventSound(s: State, e: Event, rules: Rules)
    requires s.error.None? && GoodTree(s, rules) && IsNodeEvent(e) && Step(s, e, rules).error.None?
    ensures GoodTree(Step(s, e, rules), rules) && Held(Step(s, e, rules)) == Held(s) + [e]
  {
    match e {
      case ScalarEvent(_, _, _, _, _) => ScalarSound(s, e, rules);
      case CollectionStart(_, _, _, _) => StartSound(s, e, rules);
      case CollectionEnd(mapping) => EndSound(s, mapping, rules);
      case Alias =>
    }
  }

  lemma ScalarSound(s: State, e: Event, rules: Rules)
    requires s.error.None? && GoodTree(s, rules) && e.ScalarEvent? && AcceptScalar(s, e, rules).error.None?
    ensures GoodTree(AcceptScalar(s, e, rules), rules) && Held(AcceptScalar(s, e, rules)) == Held(s) + [e]
  {
    hide AttachNode, GoodStack, FlattenStack, Nested, Flatten, Utf8.TextBytes;
    var scalar := Scalar(e.text, e.style, rules.resolve(e.text, e.style), e.at);
    var t := s.(nodes := s.nodes + 1, text := s.text + Utf8.TextBytes(e.text));
    ScalarFacts(scalar, rules, rules.maximumDepth - |s.stack|);
    AttachSound(t, ScalarNode(scalar), rules);
  }

  lemma StartSound(s: State, e: Event, rules: Rules)
    requires s.error.None? && GoodTree(s, rules) && e.CollectionStart? && Start(s, e, rules).error.None?
    ensures GoodTree(Start(s, e, rules), rules) && Held(Start(s, e, rules)) == Held(s) + [e]
  {
    hide FlattenStack, Nested, Flatten;
    var t := s.(nodes := s.nodes + 1);
    var f := if e.mapping then MappingFrame([], None, {}, e.at) else SequenceFrame([], e.at);
    assert Start(s, e, rules) == t.(stack := t.stack + [f]);
    HeldPush(t, f);
    assert FlattenFrame(f) == [e];
  }

  lemma EndSound(s: State, mapping: bool, rules: Rules)
    requires s.error.None? && GoodTree(s, rules) && End(s, mapping, rules).error.None?
    ensures GoodTree(End(s, mapping, rules), rules) && Held(End(s, mapping, rules)) == Held(s) + [CollectionEnd(mapping)]
  {
    hide AttachNode, Nested, FlattenStack, Flatten, NestedItems, NestedEntries, GoodKeys, Folds, Held;
    var k := |s.stack| - 1;
    var t, f := s.(stack := s.stack[..k]), s.stack[k];
    assert s.stack == t.stack + [f];
    HeldPush(t, f);
    assert s == t.(stack := t.stack + [f]);
    var node := if mapping then Mapping(f.entries, f.at) else Sequence(f.items, f.at);
    CloseSound(f, mapping, rules, rules.maximumDepth - k);
    AttachSound(t, node, rules);
    assert Held(t) + (FlattenFrame(f) + [CollectionEnd(mapping)]) == Held(t) + FlattenFrame(f) + [CollectionEnd(mapping)];
  }

  lemma CloseSound(f: Frame, mapping: bool, rules: Rules, d: int)
    requires f.MappingFrame? == mapping && (mapping ==> f.pending.None?) && d >= 1 && GoodFrame(f, rules, d - 1)
    ensures var node := if mapping then Mapping(f.entries, f.at) else Sequence(f.items, f.at);
            Nested(node, rules, d) && Flatten(node) == FlattenFrame(f) + [CollectionEnd(mapping)]
  {
    hide NestedItems, NestedEntries, GoodKeys, Folds, FlattenItems, FlattenEntries;
    if mapping {
      var head := [CollectionStart(true, 0, false, f.at)] + FlattenEntries(f.entries);
      assert head + [] == head;
    }
  }

  // ----- Document markers -----

  datatype Phase = Before | Open | Closed | Broken

  /** One start, then one end. */
  function PhaseAfter(events: seq<Event>): Phase
  {
    if events == [] then Before else
      var p := PhaseAfter(events[..|events| - 1]);
      match events[|events| - 1]
      case DocumentStart => if p == Before then Open else Broken
      case DocumentEnd => if p == Open then Closed else Broken
      case _ => p
  }

  /** The last node event comes between the document's start and end. */
  predicate LastNodeInside(events: seq<Event>)
  {
    events != [] &&
    var front := events[..|events| - 1];
    if IsNodeEvent(events[|events| - 1]) then PhaseAfter(front) == Open else LastNodeInside(front)
  }

  /** The run has one document, and its tree is completed inside it. */
  predicate OneDocument(events: seq<Event>)
  {
    PhaseAfter(events) == Closed && LastNodeInside(events)
  }

  predicate MarkersAgree(s: State, events: seq<Event>)
  {
    && PhaseAfter(events) != Broken
    && s.documentOpen == (PhaseAfter(events) == Open)
    && s.documentCount == (if PhaseAfter(events) == Before then 0 else 1)
    && (s.root.Some? ==> PhaseAfter(events) != Before)
    && (s.root.Some? && s.stack == [] ==> LastNodeInside(events))
  }

  /** What every error-free run keeps. */
  predicate Sound(s: State, events: seq<Event>, rules: Rules)
  {
    && GoodTree(s, rules) && MarkersAgree(s, events)
    && NodeEvents(events) == Held(s)
    && s.nodes == CountEvents(NodeEvents(events)) <= rules.maximumNodes
    && s.text == WeightEvents(NodeEvents(events)) <= rules.maximumText
  }

  lemma ErrorsStick(s: State, e: Event, rules: Rules)
    requires s.error.Some?
    ensures Step(s, e, rules).error == s.error
  {
  }

  lemma AttachFields(s: State, node: Node, rules: Rules)
    requires s.error.None? && AttachNode(s, node, rules).error.None?
    ensures var t := AttachNode(s, node, rules);
            && t == s.(root := t.root, stack := t.stack) && |t.stack| == |s.stack|
            && if s.stack == [] then s.documentOpen && s.root.None? else t.root == s.root
  {
  }

  /** Node events leave the markers alone, and only complete a tree inside the document. */
  lemma NodeEventFields(s: State, e: Event, rules: Rules)
    requires s.error.None? && IsNodeEvent(e) && Step(s, e, rules).error.None?
    ensures var t := Step(s, e, rules);
            && t.documentOpen == s.documentOpen && t.documentCount == s.documentCount
            && (t.root.Some? && t.stack == [] ==> s.documentOpen && s.root.None?)
            && (t.root.Some? ==> s.documentOpen || s.root.Some?)
            && (s.root.Some? ==> t.root == s.root)
            && t.nodes == s.nodes + (if e.ScalarEvent? || e.CollectionStart? then 1 else 0) <= Max(rules.maximumNodes, s.nodes)
            && t.text == s.text + (if e.ScalarEvent? then Utf8.TextBytes(e.text) else 0) <= Max(rules.maximumText, s.text)
  {
    hide Utf8.TextBytes, AttachNode;
    match e {
      case ScalarEvent(_, _, _, _, _) =>
        var node := ScalarNode(Scalar(e.text, e.style, rules.resolve(e.text, e.style), e.at));
        AttachFields(s.(nodes := s.nodes + 1, text := s.text + Utf8.TextBytes(e.text)), node, rules);
      case CollectionStart(_, _, _, _) =>
      case CollectionEnd(mapping) =>
        var k := |s.stack| - 1;
        var f := s.stack[k];
        AttachFields(s.(stack := s.stack[..k]), if mapping then Mapping(f.entries, f.at) else Sequence(f.items, f.at), rules);
      case Alias =>
    }
  }

  function Max(a: nat, b: nat): nat
  {
    if a <= b then b else a
  }

  lemma SoundStep(s: State, events: seq<Event>, e: Event, rules: Rules)
    requires s.error.None? && Sound(s, events, rules) && Step(s, e, rules).error.None?
    ensures Sound(Step(s, e, rules), events + [e], rules)
  {
    hide Step, GoodTree, Held, CountEvents, WeightEvents, NodeEvents;
    var all, held := events + [e], NodeEvents(events);
    assert all[..|events|] == events;
    NodeEventsSnoc(events, e);
    if IsNodeEvent(e) {
      NodeEventSound(s, e, rules);
      NodeEventFields(s, e, rules);
      MeasureConcat(held, [e]);
      MeasureOne(e);
    } else {
      MarkerFields(s, e, rules);
    }
  }

  lemma NodeEventsSnoc(events: seq<Event>, e: Event)
    ensures NodeEvents(events + [e]) == if IsNodeEvent(e) then NodeEvents(events) + [e] else NodeEvents(events)
  {
    assert (events + [e])[..|events|] == events;
    assert NodeEvents(events) + [] == NodeEvents(events);
  }

  lemma MarkerFields(s: State, e: Event, rules: Rules)
    requires s.error.None? && !IsNodeEvent(e) && Step(s, e, rules).error.None?
    ensures var t := Step(s, e, rules);
            && t == s.(documentOpen := t.documentOpen, documentCount := t.documentCount)
            && t.documentOpen == (if e == DocumentStart then true else if e == DocumentEnd then false else s.documentOpen)
            && t.documentCount == (if e == DocumentStart then 1 else s.documentCount)
            && (e == DocumentStart ==> !s.documentOpen && s.documentCount == 0) && (e == DocumentEnd ==> s.documentOpen)
            && GoodTree(t, rules) == GoodTree(s, rules) && Held(t) == Held(s)
  {
    hide GoodStack, Nested, FlattenStack, Flatten;
  }

  lemma {:induction false} RunSound(events: seq<Event>, rules: Rules)
    ensures var s := Run(INITIAL, events, rules); s.error.None? ==> Sound(s, events, rules)
    decreases |events|
  {
    hide Step;
    if events == [] {
    } else {
      var front, last := events[..|events| - 1], events[|events| - 1];
      assert events == front + [last];
      RunSound(front, rules);
      var s := Run(INITIAL, front, rules);
      if s.error.Some? {
        ErrorsStick(s, last, rules);
      } else if Step(s, last, rules).error.None? {
        SoundStep(s, front, last, rules);
      }
    }
  }

  /** An accepted run has one document, its node events are exactly those of the returned tree, and the tree
      respects every limit and key rule. */
  lemma ParseSound(events: seq<Event>, tokenizerFailed: bool, rules: Rules)
    requires Parse(events, tokenizerFailed, rules).Ok?
    ensures var n := Parse(events, tokenizerFailed, rules).value;
            !tokenizerFailed && NodeEvents(events) == Flatten(n) && OneDocument(events) && Fits(n, rules)
  {
    hide Run, NodeEvents, Flatten, Nested, CountEvents, WeightEvents, Count, Weight;
    RunSound(events, rules);
    var s := Run(INITIAL, events, rules);
    assert Flatten(s.root.value) + [] == Flatten(s.root.value);
    MeasureFlatten(s.root.value);
  }

  // ----- Completeness over any placement of the markers -----

  /** The state as if the document had been open all along. */
  function Opened(s: State): State
  {
    s.(documentOpen := true, documentCount := 1)
  }

  lemma AttachCommutes(s: State, node: Node, rules: Rules)
    requires s.error.None? && AttachNode(Opened(s), node, rules).error.None?
    requires s.documentOpen || AttachNode(Opened(s), node, rules).root == s.root
    ensures AttachNode(Opened(s), node, rules) == Opened(AttachNode(s, node, rules))
  {
    assert s.stack == [] ==> s.documentOpen;
  }

  lemma NodeEventCommutes(s: State, e: Event, rules: Rules)
    requires s.error.None? && IsNodeEvent(e) && Step(Opened(s), e, rules).error.None?
    requires s.documentOpen || Step(Opened(s), e, rules).root == s.root
    ensures Step(Opened(s), e, rules) == Opened(Step(s, e, rules))
  {
    hide Utf8.TextBytes, AttachNode;
    match e {
      case ScalarEvent(_, _, _, _, _) =>
        var t := s.(nodes := s.nodes + 1, text := s.text + Utf8.TextBytes(e.text));
        var node := ScalarNode(Scalar(e.text, e.style, rules.resolve(e.text, e.style), e.at));
        assert Step(Opened(s), e, rules) == AttachNode(Opened(t), node, rules);
        AttachCommutes(t, node, rules);
      case CollectionStart(_, _, _, _) =>
      case CollectionEnd(mapping) =>
        var k := |s.stack| - 1;
        var t, f := s.(stack := s.stack[..k]), s.stack[k];
        var node := if mapping then Mapping(f.entries, f.at) else Sequence(f.items, f.at);
        assert Step(Opened(s), e, rules) == AttachNode(Opened(t), node, rules);
        AttachCommutes(t, node, rules);
      case Alias =>
    }
  }

  /** Markers in their places do not disturb a run of node events that goes well. */
  lemma {:induction false} Simulate(events: seq<Event>, rules: Rules)
    requires var ideal := Run(Opened(INITIAL), NodeEvents(events), rules);
             ideal.error.None? && (ideal.root.Some? ==> ideal.stack == [] && LastNodeInside(events))
    requires PhaseAfter(events) != Broken
    ensures Opened(Run(INITIAL, events, rules)) == Run(Opened(INITIAL), NodeEvents(events), rules)
    decreases |events|
  {
    hide Step;
    if events != [] {
      var front, e := events[..|events| - 1], events[|events| - 1];
      assert events == front + [e];
      NodeEventsSnoc(front, e);
      var ideal := Run(Opened(INITIAL), NodeEvents(front), rules);
      if IsNodeEvent(e) {
        var all := NodeEvents(front) + [e];
        assert all[..|all| - 1] == NodeEvents(front);
        if ideal.error.Some? { ErrorsStick(ideal, e, rules); }
        if ideal.root.Some? { NodeEventFields(ideal, e, rules); }
        Simulate(front, rules);
        var s := Run(INITIAL, front, rules);
        RunSound(front, rules);
        if Step(ideal, e, rules).root.Some? { NodeEventFields(ideal, e, rules); }
        NodeEventCommutes(s, e, rules);
      } else {
        Simulate(front, rules);
        RunSound(front, rules);
        MarkerAccepted(Run(INITIAL, front, rules), front, e, rules);
      }
    }
  }

  lemma MarkerAccepted(s: State, events: seq<Event>, e: Event, rules: Rules)
    requires s.error.None? && MarkersAgree(s, events) && !IsNodeEvent(e) && PhaseAfter(events + [e]) != Broken
    ensures Opened(Step(s, e, rules)) == Opened(s)
  {
    assert (events + [e])[..|events|] == events;
  }

  /** Every tree that fits is rebuilt from its events, wherever the markers fall around their last one. */
  lemma ParseComplete(events: seq<Event>, n: Node, rules: Rules)
    requires NodeEvents(events) == Flatten(n) && OneDocument(events) && Fits(n, rules)
    ensures Parse(events, false, rules) == Ok(n)
  {
    hide Run, NodeEvents, Flatten, Nested, Count, Weight, LastNodeInside, PhaseAfter, Sound;
    Build(Opened(INITIAL), n, rules);
    Simulate(events, rules);
    RunSound(events, rules);
    SoundMarkers(Run(INITIAL, events, rules), events, rules);
  }

  lemma SoundMarkers(s: State, events: seq<Event>, rules: Rules)
    requires Sound(s, events, rules)
    ensures MarkersAgree(s, events)
  {
  }

  /** The receiver returns a tree exactly when the run is that tree's events inside one document and the tree fits. */
  lemma ParseExact(events: seq<Event>, tokenizerFailed: bool, rules: Rules, n: Node)
    ensures Parse(events, tokenizerFailed, rules) == Ok(n) <==>
              !tokenizerFailed && NodeEvents(events) == Flatten(n) && OneDocument(events) && Fits(n, rules)
  {
    hide NodeEvents, Flatten, OneDocument, Fits, Run;
    if Parse(events, tokenizerFailed, rules) == Ok(n) {
      ParseSound(events, tokenizerFailed, rules);
    } else if !tokenizerFailed && NodeEvents(events) == Flatten(n) && OneDocument(events) && Fits(n, rules) {
      ParseComplete(events, n, rules);
    }
  }

  /** Two trees with the same events are the same when both fit. */
  lemma FlattenInjective(a: Node, b: Node, rules: Rules)
    requires Fits(a, rules) && Fits(b, rules) && Flatten(a) == Flatten(b)
    ensures a == b
  {
    hide Run, Flatten, Nested, Count, Weight;
    Build(Opened(INITIAL), a, rules);
    Build(Opened(INITIAL), b, rules);
  }

  /** `parse_yaml`: feeding the events to a receiver one by one. */
  method ParseYaml(events: seq<Event>, tokenizerFailed: bool, rules: Rules) returns (r: Result<Node, Error>)
    ensures r == Parse(events, tokenizerFailed, rules)
    ensures forall n :: r == Ok(n) <==>
              !tokenizerFailed && NodeEvents(events) == Flatten(n) && OneDocument(events) && Fits(n, rules)
  {
    hide Step, NodeEvents, Flatten, OneDocument, Fits;
    var receiver := new Receiver(rules);
    for i := 0 to |events|
      invariant receiver.rules == rules && receiver.Value() == Run(INITIAL, events[..i], rules)
    {
      assert events[..i + 1][..i] == events[..i];
      receiver.OnEvent(events[i]);
    }
    assert events[..|events|] == events;
    forall n
      ensures Parse(events, tokenizerFailed, rules) == Ok(n) <==>
                !tokenizerFailed && NodeEvents(events) == Flatten(n) && OneDocument(events) && Fits(n, rules)
    {
      ParseExact(events, tokenizerFailed, rules, n);
    }
    if receiver.error.None? && tokenizerFailed {
      receiver.error := Some(InvalidSyntax);
    }
    if receiver.error.Some? {
      return Err(receiver.error.value);
    }
    if receiver.documentOpen || receiver.stack != [] {
      return Err(BadDocument);
    }
    r := if receiver.root.Some? then Ok(receiver.root.value) else Err(BadDocument);
  }
}

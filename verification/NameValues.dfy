/** Ordered name/value lists with in-place replacement (`replace_name_value` in
    crates/automata-ci-actions-runtime/src/phase.rs) and the PATH list built beside them. */
module NameValues {

  import opened Text

  datatype Platform = Unix | Windows

  datatype NameValue = NameValue(name: string, value: string)

  /** Names are equal when their keys are: exactly, or up to ASCII case. */
  function Key(name: string, folded: bool): string
  {
    if folded then Lower(name) else name
  }

  function KeyOf(p: NameValue, folded: bool): string
  {
    Key(p.name, folded)
  }

  /** The first entry with a key, or the number of entries. */
  function Position(values: seq<NameValue>, key: string, folded: bool): (k: nat)
    ensures k <= |values|
    ensures k < |values| ==> KeyOf(values[k], folded) == key
    ensures forall i :: 0 <= i < k ==> KeyOf(values[i], folded) != key
  {
    if values == [] || KeyOf(values[0], folded) == key then 0 else 1 + Position(values[1..], key, folded)
  }

  /** Keeps the place and spelling of an equal name, or appends. */
  function Write(values: seq<NameValue>, w: NameValue, folded: bool): seq<NameValue>
  {
    var k := Position(values, KeyOf(w, folded), folded);
    if k < |values| then values[k := NameValue(values[k].name, w.value)] else values + [w]
  }

  function WriteAll(values: seq<NameValue>, ws: seq<NameValue>, folded: bool): seq<NameValue>
    decreases |ws|
  {
    if ws == [] then values else Write(WriteAll(values, ws[..|ws| - 1], folded), ws[|ws| - 1], folded)
  }

  lemma {:induction false} WriteAllConcat(values: seq<NameValue>, a: seq<NameValue>, b: seq<NameValue>, folded: bool)
    ensures WriteAll(values, a + b, folded) == WriteAll(WriteAll(values, a, folded), b, folded)
    decreases |b|
  {
    if b == [] {
      assert a + b == a;
    } else {
      var n := |b| - 1;
      assert (a + b)[..|a + b| - 1] == a + b[..n];
      WriteAllConcat(values, a, b[..n], folded);
    }
  }

  predicate Distinct(values: seq<NameValue>, folded: bool)
  {
    forall i, j :: 0 <= i < j < |values| ==> KeyOf(values[i], folded) != KeyOf(values[j], folded)
  }

  // ----- The list as a function of its whole write history -----

  /** Every entry with a key takes a value. */
  function SetValue(values: seq<NameValue>, key: string, value: string, folded: bool): (r: seq<NameValue>)
    ensures |r| == |values|
    ensures forall i :: 0 <= i < |values| ==>
              r[i] == if KeyOf(values[i], folded) == key then NameValue(values[i].name, value) else values[i]
  {
    seq(|values|, i requires 0 <= i < |values| =>
      if KeyOf(values[i], folded) == key then NameValue(values[i].name, value) else values[i])
  }

  /** The value of the last write with a key among the first `n` writes. */
  function LastValue(ws: seq<NameValue>, n: nat, key: string, folded: bool): Option<string>
    requires n <= |ws|
  {
    if n == 0 then None
    else if KeyOf(ws[n - 1], folded) == key then Some(ws[n - 1].value)
    else LastValue(ws, n - 1, key, folded)
  }

  function Keys(values: seq<NameValue>, folded: bool): set<string>
  {
    set i | 0 <= i < |values| :: KeyOf(values[i], folded)
  }

  lemma KeysSnoc(values: seq<NameValue>, p: NameValue, folded: bool)
    ensures Keys(values + [p], folded) == Keys(values, folded) + {KeyOf(p, folded)}
    ensures Distinct(values + [p], folded) <==> Distinct(values, folded) && KeyOf(p, folded) !in Keys(values, folded)
  {
    hide Key;
    var all := values + [p];
    assert forall i :: 0 <= i < |values| ==> all[i] == values[i];
    assert all[|values|] == p;
  }

  lemma PositionIn(values: seq<NameValue>, key: string, folded: bool)
    ensures Position(values, key, folded) < |values| <==> key in Keys(values, folded)
  {
    hide Key;
  }

  /** No earlier write used this name. */
  predicate FirstWrite(ws: seq<NameValue>, i: nat, folded: bool)
    requires i < |ws|
  {
    KeyOf(ws[i], folded) !in Keys(ws[..i], folded)
  }

  /** One entry for each first write among the first `n`, in that order: its spelling with the value of
      the last write under the same name in the whole history. */
  function Summary(ws: seq<NameValue>, n: nat, folded: bool): seq<NameValue>
    requires n <= |ws|
  {
    if n == 0 then [] else
      Summary(ws, n - 1, folded) +
      if FirstWrite(ws, n - 1, folded) then
        [NameValue(ws[n - 1].name, GetOr(LastValue(ws, |ws|, KeyOf(ws[n - 1], folded), folded), ws[n - 1].value))]
      else []
  }

  function Canonical(ws: seq<NameValue>, folded: bool): seq<NameValue>
  {
    Summary(ws, |ws|, folded)
  }

  lemma {:induction false} LastValuePrefix(ws: seq<NameValue>, more: seq<NameValue>, n: nat, key: string, folded: bool)
    requires n <= |ws|
    ensures LastValue(ws + more, n, key, folded) == LastValue(ws, n, key, folded)
  {
    if n > 0 {
      assert (ws + more)[n - 1] == ws[n - 1];
      LastValuePrefix(ws, more, n - 1, key, folded);
    }
  }

  lemma {:induction false} LastValueExists(ws: seq<NameValue>, n: nat, i: nat, folded: bool)
    requires i < n <= |ws|
    ensures LastValue(ws, n, KeyOf(ws[i], folded), folded).Some?
  {
    if i < n - 1 { LastValueExists(ws, n - 1, i, folded); }
  }

  /** One more write sets the value of the entries under its name. */
  lemma {:induction false} SummarySnoc(ws: seq<NameValue>, w: NameValue, n: nat, folded: bool)
    requires n <= |ws|
    ensures Summary(ws + [w], n, folded) == SetValue(Summary(ws, n, folded), KeyOf(w, folded), w.value, folded)
  {
    hide Key, Keys;
    if n > 0 {
      SummarySnoc(ws, w, n - 1, folded);
      var all, x := ws + [w], ws[n - 1];
      assert all[n - 1] == x && all[|all| - 1] == w && all[..n - 1] == ws[..n - 1];
      LastValuePrefix(ws, [w], |ws|, KeyOf(x, folded), folded);
      LastValueExists(ws, |ws|, n - 1, folded);
    }
  }

  /** The summary has one entry for each name written. */
  lemma {:induction false} SummaryKeys(ws: seq<NameValue>, n: nat, folded: bool)
    requires n <= |ws|
    ensures Distinct(Summary(ws, n, folded), folded) && Keys(Summary(ws, n, folded), folded) == Keys(ws[..n], folded)
  {
    hide Key, Keys, Distinct;
    if n == 0 {
      assert ws[..0] == [];
      KeysEmpty(folded);
    } else {
      SummaryKeys(ws, n - 1, folded);
      var before := Summary(ws, n - 1, folded);
      var x := NameValue(ws[n - 1].name, GetOr(LastValue(ws, |ws|, KeyOf(ws[n - 1], folded), folded), ws[n - 1].value));
      KeysSnoc(before, x, folded);
      assert ws[..n] == ws[..n - 1] + [ws[n - 1]];
      KeysSnoc(ws[..n - 1], ws[n - 1], folded);
      assert before + [] == before;
    }
  }

  lemma KeysEmpty(folded: bool)
    ensures Keys([], folded) == {} && Distinct([], folded)
  {
  }

  lemma WriteDistinct(values: seq<NameValue>, w: NameValue, folded: bool)
    requires Distinct(values, folded)
    ensures Write(values, w, folded) == SetValue(values, KeyOf(w, folded), w.value, folded)
                                        + if KeyOf(w, folded) in Keys(values, folded) then [] else [w]
  {
    hide Key, Keys;
    PositionIn(values, KeyOf(w, folded), folded);
    var set_ := SetValue(values, KeyOf(w, folded), w.value, folded);
    assert set_ + [] == set_;
  }

  /** After any writes the list is exactly the canonical summary of those writes, order included. */
  lemma {:induction false} WriteAllIsCanonical(ws: seq<NameValue>, folded: bool)
    ensures WriteAll([], ws, folded) == Canonical(ws, folded)
    decreases |ws|
  {
    hide Key, Keys, Distinct, Write;
    if ws != [] {
      var n := |ws| - 1;
      var before, w := ws[..n], ws[n];
      assert ws == before + [w] && before[..n] == before;
      WriteAllIsCanonical(before, folded);
      SummarySnoc(before, w, n, folded);
      SummaryKeys(before, n, folded);
      WriteDistinct(Canonical(before, folded), w, folded);
      assert LastValue(ws, |ws|, KeyOf(w, folded), folded) == Some(w.value);
    }
  }

  function Lookup(values: seq<NameValue>, key: string, folded: bool): Option<NameValue>
  {
    var k := Position(values, key, folded);
    if k < |values| then Some(values[k]) else None
  }

  lemma LookupSnoc(values: seq<NameValue>, p: NameValue, key: string, folded: bool)
    ensures Lookup(values + [p], key, folded) ==
              if Lookup(values, key, folded).Some? then Lookup(values, key, folded)
              else if KeyOf(p, folded) == key then Some(p) else None
  {
    hide Key, Position;
    var all := values + [p];
    assert (forall i :: 0 <= i < |values| ==> all[i] == values[i]) && all[|values|] == p;
    var j, k := Position(all, key, folded), Position(values, key, folded);
    assert k < |values| ==> j == k;
    assert k == |values| ==> j >= |values|;
  }

  /** The first write with a key, with the value of the last one. */
  function Expected(ws: seq<NameValue>, key: string, folded: bool): Option<NameValue>
  {
    var k := Position(ws, key, folded);
    if k < |ws| then Some(NameValue(ws[k].name, GetOr(LastValue(ws, |ws|, key, folded), ""))) else None
  }

  lemma {:induction false} SummaryLookup(ws: seq<NameValue>, n: nat, key: string, folded: bool)
    requires n <= |ws|
    ensures Lookup(Summary(ws, n, folded), key, folded) ==
              if Position(ws, key, folded) < n then Expected(ws, key, folded) else None
  {
    hide Key, Position, Keys;
    if n > 0 {
      SummaryLookup(ws, n - 1, key, folded);
      var before, x := Summary(ws, n - 1, folded), ws[n - 1];
      FirstWriteIsFirst(ws, n - 1, folded);
      LastValueExists(ws, |ws|, n - 1, folded);
      LookupSnoc(before, NameValue(x.name, GetOr(LastValue(ws, |ws|, KeyOf(x, folded), folded), x.value)), key, folded);
      assert before + [] == before;
    }
  }

  lemma FirstWriteIsFirst(ws: seq<NameValue>, i: nat, folded: bool)
    requires i < |ws|
    ensures FirstWrite(ws, i, folded) <==> Position(ws, KeyOf(ws[i], folded), folded) == i
  {
    hide Key;
    var k := Position(ws, KeyOf(ws[i], folded), folded);
    assert k <= i;
    assert forall j :: 0 <= j < i ==> ws[..i][j] == ws[j];
    if k < i { assert KeyOf(ws[..i][k], folded) == KeyOf(ws[i], folded); }
  }

  /** What the list answers after any writes: the first spelling of a name with the last value written
      under any equal name, and nothing for a name never written. */
  lemma LookupAfterWrites(ws: seq<NameValue>, key: string, folded: bool)
    ensures Lookup(WriteAll([], ws, folded), key, folded) == Expected(ws, key, folded)
    ensures Distinct(WriteAll([], ws, folded), folded)
  {
    hide Summary, WriteAll, Position;
    WriteAllIsCanonical(ws, folded);
    SummaryLookup(ws, |ws|, key, folded);
    SummaryKeys(ws, |ws|, folded);
  }

  // ----- Writing the same list again -----

  lemma {:induction false} WriteAllKeys(values: seq<NameValue>, ws: seq<NameValue>, folded: bool)
    requires Distinct(values, folded)
    ensures Distinct(WriteAll(values, ws, folded), folded)
    ensures Keys(WriteAll(values, ws, folded), folded) == Keys(values, folded) + Keys(ws, folded)
    decreases |ws|
  {
    hide Key, Keys, Distinct, Write;
    if ws == [] {
      KeysEmpty(folded);
    } else {
      var n := |ws| - 1;
      WriteAllKeys(values, ws[..n], folded);
      var before := WriteAll(values, ws[..n], folded);
      WriteKeys(before, ws[n], folded);
      assert ws == ws[..n] + [ws[n]];
      KeysSnoc(ws[..n], ws[n], folded);
    }
  }

  lemma WriteKeys(values: seq<NameValue>, w: NameValue, folded: bool)
    requires Distinct(values, folded)
    ensures Distinct(Write(values, w, folded), folded)
    ensures Keys(Write(values, w, folded), folded) == Keys(values, folded) + {KeyOf(w, folded)}
  {
    hide Key;
    PositionIn(values, KeyOf(w, folded), folded);
    var out := Write(values, w, folded);
    if KeyOf(w, folded) in Keys(values, folded) {
      assert forall i :: 0 <= i < |values| ==> KeyOf(out[i], folded) == KeyOf(values[i], folded);
      assert Keys(out, folded) == Keys(values, folded);
    } else {
      KeysSnoc(values, w, folded);
    }
  }

  /** Each entry takes the value of the last write under its name, if there is one. */
  function Override(values: seq<NameValue>, ws: seq<NameValue>, folded: bool): (r: seq<NameValue>)
    ensures |r| == |values|
    ensures forall i :: 0 <= i < |values| ==>
              r[i] == NameValue(values[i].name, GetOr(LastValue(ws, |ws|, KeyOf(values[i], folded), folded), values[i].value))
  {
    seq(|values|, i requires 0 <= i < |values| =>
      NameValue(values[i].name, GetOr(LastValue(ws, |ws|, KeyOf(values[i], folded), folded), values[i].value)))
  }

  lemma LastValueSnoc(ws: seq<NameValue>, w: NameValue, key: string, folded: bool)
    ensures LastValue(ws + [w], |ws| + 1, key, folded) ==
              if KeyOf(w, folded) == key then Some(w.value) else LastValue(ws, |ws|, key, folded)
  {
    hide Key;
    assert (ws + [w])[|ws|] == w;
    LastValuePrefix(ws, [w], |ws|, key, folded);
  }

  lemma OverrideSnoc(values: seq<NameValue>, ws: seq<NameValue>, w: NameValue, folded: bool)
    ensures Override(values, ws + [w], folded) == SetValue(Override(values, ws, folded), KeyOf(w, folded), w.value, folded)
  {
    hide Key, LastValue;
    forall i | 0 <= i < |values|
      ensures Override(values, ws + [w], folded)[i] == SetValue(Override(values, ws, folded), KeyOf(w, folded), w.value, folded)[i]
    {
      LastValueSnoc(ws, w, KeyOf(values[i], folded), folded);
    }
  }

  /** Writing only names that are present changes values and nothing else. */
  lemma {:induction false} WriteAllPresent(values: seq<NameValue>, ws: seq<NameValue>, folded: bool)
    requires Distinct(values, folded) && Keys(ws, folded) <= Keys(values, folded)
    ensures WriteAll(values, ws, folded) == Override(values, ws, folded)
    decreases |ws|
  {
    hide Key, Keys, Distinct, Write, Override;
    if ws == [] {
      OverrideNothing(values, folded);
    } else {
      var n := |ws| - 1;
      var before, w := ws[..n], ws[n];
      assert ws == before + [w];
      KeysSnoc(before, w, folded);
      WriteAllPresent(values, before, folded);
      WriteAllKeys(values, before, folded);
      OverrideSnoc(values, before, w, folded);
      WriteDistinct(Override(values, before, folded), w, folded);
    }
  }

  lemma OverrideNothing(values: seq<NameValue>, folded: bool)
    ensures Override(values, [], folded) == values
  {
  }

  /** The written list already holds the last value of every name written. */
  lemma {:induction false} WriteAllHolds(values: seq<NameValue>, ws: seq<NameValue>, folded: bool)
    requires Distinct(values, folded)
    ensures Override(WriteAll(values, ws, folded), ws, folded) == WriteAll(values, ws, folded)
    decreases |ws|
  {
    hide Key, Keys, Distinct, Write, Override;
    if ws == [] {
      OverrideNothing(values, folded);
    } else {
      var n := |ws| - 1;
      var before, w := ws[..n], ws[n];
      assert ws == before + [w];
      WriteAllHolds(values, before, folded);
      WriteAllKeys(values, before, folded);
      OneWriteHolds(WriteAll(values, before, folded), before, w, folded);
    }
  }

  lemma OneWriteHolds(values: seq<NameValue>, ws: seq<NameValue>, w: NameValue, folded: bool)
    requires Distinct(values, folded) && Override(values, ws, folded) == values
    ensures Override(Write(values, w, folded), ws + [w], folded) == Write(values, w, folded)
  {
    hide Key, Keys, LastValue, Write;
    WriteDistinct(values, w, folded);
    var out := Write(values, w, folded);
    forall i | 0 <= i < |out|
      ensures Override(out, ws + [w], folded)[i] == out[i]
    {
      LastValueSnoc(ws, w, KeyOf(out[i], folded), folded);
      if i < |values| { assert Override(values, ws, folded)[i] == values[i]; }
    }
  }

  /** Replaying the same writes changes nothing, order included. */
  lemma WriteAllTwice(values: seq<NameValue>, ws: seq<NameValue>, folded: bool)
    requires Distinct(values, folded)
    ensures WriteAll(WriteAll(values, ws, folded), ws, folded) == WriteAll(values, ws, folded)
  {
    hide WriteAll, Override, Keys, Distinct;
    WriteAllKeys(values, ws, folded);
    WriteAllPresent(WriteAll(values, ws, folded), ws, folded);
    WriteAllHolds(values, ws, folded);
  }

  // ----- PATH entries -----

  /** `retain` of the entries different from `p`. */
  function Without(paths: seq<string>, p: string): seq<string>
  {
    Minus(paths, {p})
  }

  function Minus(paths: seq<string>, gone: set<string>): seq<string>
  {
    if paths == [] then []
    else (if paths[0] in gone then [] else [paths[0]]) + Minus(paths[1..], gone)
  }

  function Prepend(paths: seq<string>, p: string): seq<string>
  {
    Without(paths, p) + [p]
  }

  function PrependAll(paths: seq<string>, ps: seq<string>): seq<string>
    decreases |ps|
  {
    if ps == [] then paths else Prepend(PrependAll(paths, ps[..|ps| - 1]), ps[|ps| - 1])
  }

  /** Each entry that no later entry repeats. */
  function KeepLast(ps: seq<string>): seq<string>
  {
    if ps == [] then []
    else (if ps[0] in ps[1..] then [] else [ps[0]]) + KeepLast(ps[1..])
  }

  /** Entry `k` stems from prepend `lasts[k]`, the last of its text, in order, and no prepended text is missing. */
  ghost predicate HoldsLast(paths: seq<string>, ps: seq<string>, lasts: seq<nat>)
  {
    && |lasts| == |paths|
    && (forall j, k :: 0 <= j < k < |lasts| ==> lasts[j] < lasts[k])
    && (forall k :: 0 <= k < |lasts| ==> IsLastAt(paths, ps, k, lasts[k]))
    && (forall x :: x in ps ==> x in paths)
  }

  lemma {:induction false} KeepLastExactly(ps: seq<string>) returns (lasts: seq<nat>)
    ensures HoldsLast(KeepLast(ps), ps, lasts)
  {
    hide HoldsLast;
    if ps == [] {
      lasts := [];
      assert HoldsLast([], [], []) by { NothingLast(); }
    } else {
      var tail := ps[1..];
      var rest := KeepLastExactly(tail);
      var shifted := seq(|rest|, i requires 0 <= i < |rest| => rest[i] + 1);
      lasts := (if ps[0] in tail then [] else [0]) + shifted;
      assert ps == [ps[0]] + tail;
      if ps[0] in tail {
        ShiftKept(KeepLast(tail), ps[0], tail, rest, shifted);
        assert [] + shifted == shifted && [] + KeepLast(tail) == KeepLast(tail);
      } else {
        ShiftNew(KeepLast(tail), ps[0], tail, rest, shifted);
      }
    }
  }

  lemma NothingLast()
    ensures HoldsLast([], [], [])
  {
  }

  predicate IsLastAt(paths: seq<string>, ps: seq<string>, k: nat, at: nat)
    requires k < |paths|
  {
    at < |ps| && ps[at] == paths[k] && paths[k] !in ps[at + 1..]
  }

  lemma ShiftOne(paths: seq<string>, first: string, tail: seq<string>, k: nat, at: nat)
    requires k < |paths| && IsLastAt(paths, tail, k, at)
    ensures IsLastAt(paths, [first] + tail, k, at + 1)
  {
    assert ([first] + tail)[at + 2..] == tail[at + 1..];
  }

  lemma ShiftKept(paths: seq<string>, first: string, tail: seq<string>, rest: seq<nat>, shifted: seq<nat>)
    requires HoldsLast(paths, tail, rest) && |shifted| == |rest| && forall i :: 0 <= i < |rest| ==> shifted[i] == rest[i] + 1
    requires first in tail
    ensures HoldsLast(paths, [first] + tail, shifted)
  {
    hide IsLastAt;
    forall k | 0 <= k < |shifted|
      ensures IsLastAt(paths, [first] + tail, k, shifted[k])
    {
      ShiftOne(paths, first, tail, k, rest[k]);
    }
  }

  lemma ShiftNew(paths: seq<string>, first: string, tail: seq<string>, rest: seq<nat>, shifted: seq<nat>)
    requires HoldsLast(paths, tail, rest) && |shifted| == |rest| && forall i :: 0 <= i < |rest| ==> shifted[i] == rest[i] + 1
    requires first !in tail
    ensures HoldsLast([first] + paths, [first] + tail, [0] + shifted)
  {
    hide IsLastAt;
    var all, more := [first] + paths, [0] + shifted;
    forall k | 0 <= k < |more|
      ensures IsLastAt(all, [first] + tail, k, more[k])
    {
      if k == 0 {
        NewIsLast(paths, first, tail);
      } else {
        ShiftOne(paths, first, tail, k - 1, rest[k - 1]);
        SameEntry(paths, all, [first] + tail, k - 1, k, more[k]);
      }
    }
  }

  lemma NewIsLast(paths: seq<string>, first: string, tail: seq<string>)
    requires first !in tail
    ensures IsLastAt([first] + paths, [first] + tail, 0, 0)
  {
    assert ([first] + tail)[1..] == tail;
  }

  lemma SameEntry(paths: seq<string>, all: seq<string>, ps: seq<string>, j: nat, k: nat, at: nat)
    requires j < |paths| && k < |all| && all[k] == paths[j] && IsLastAt(paths, ps, j, at)
    ensures IsLastAt(all, ps, k, at)
  {
  }

  function Elements(ps: seq<string>): set<string>
  {
    set x | x in ps
  }

  lemma {:induction false} MinusMembers(paths: seq<string>, gone: set<string>, x: string)
    ensures x in Minus(paths, gone) <==> x in paths && x !in gone
  {
    if paths != [] {
      MinusMembers(paths[1..], gone, x);
      assert paths == [paths[0]] + paths[1..];
    }
  }

  lemma {:induction false} KeepLastMembers(ps: seq<string>, x: string)
    ensures x in KeepLast(ps) <==> x in ps
  {
    if ps != [] {
      KeepLastMembers(ps[1..], x);
      assert ps == [ps[0]] + ps[1..];
    }
  }

  lemma {:induction false} MinusConcat(a: seq<string>, b: seq<string>, gone: set<string>)
    ensures Minus(a + b, gone) == Minus(a, gone) + Minus(b, gone)
  {
    if a == [] {
      assert a + b == b;
    } else {
      assert (a + b)[1..] == a[1..] + b;
      MinusConcat(a[1..], b, gone);
    }
  }

  lemma {:induction false} MinusMinus(a: seq<string>, g: set<string>, h: set<string>)
    ensures Minus(Minus(a, g), h) == Minus(a, g + h)
  {
    if a != [] {
      MinusMinus(a[1..], g, h);
      var head := if a[0] in g then [] else [a[0]];
      MinusConcat(head, Minus(a[1..], g), h);
      assert Minus([], h) == [];
      assert Minus([a[0]], h) == if a[0] in h then [] else [a[0]];
    }
  }

  lemma {:induction false} MinusAll(a: seq<string>, gone: set<string>)
    requires forall x :: x in a ==> x in gone
    ensures Minus(a, gone) == []
  {
    if a != [] { MinusAll(a[1..], gone); }
  }

  lemma MinusOne(x: string, gone: set<string>)
    ensures Minus([x], gone) == (if x in gone then [] else [x]) && Minus([], gone) == []
  {
    assert [x][1..] == [];
  }

  lemma {:induction false} KeepLastSnoc(ps: seq<string>, p: string)
    ensures KeepLast(ps + [p]) == Without(KeepLast(ps), p) + [p]
  {
    hide Minus;
    if ps == [] {
      assert ps + [p] == [p] && [p][1..] == [];
      MinusOne(p, {p});
    } else {
      assert (ps + [p])[1..] == ps[1..] + [p];
      KeepLastSnoc(ps[1..], p);
      var head, rest := if ps[0] in ps[1..] then [] else [ps[0]], KeepLast(ps[1..]);
      MinusConcat(head, rest, {p});
      MinusOne(ps[0], {p});
      assert ps[0] in ps[1..] + [p] <==> ps[0] in ps[1..] || ps[0] == p;
      var keep := if ps[0] in ps[1..] + [p] then [] else [ps[0]];
      assert Minus(head, {p}) == keep;
      assert keep + (Minus(rest, {p}) + [p]) == keep + Minus(rest, {p}) + [p];
    }
  }

  /** After any prepends: what was not repeated, then the last occurrences in order. */
  lemma {:induction false} PrependAllIs(paths: seq<string>, ps: seq<string>)
    ensures PrependAll(paths, ps) == Minus(paths, Elements(ps)) + KeepLast(ps)
    decreases |ps|
  {
    hide Minus, KeepLast, Elements;
    if ps == [] {
      MinusNothing(paths);
    } else {
      var n := |ps| - 1;
      var before, p := ps[..n], ps[n];
      assert ps == before + [p];
      PrependAllIs(paths, before);
      var kept, last := Minus(paths, Elements(before)), KeepLast(before);
      MinusConcat(kept, last, {p});
      MinusMinus(paths, Elements(before), {p});
      KeepLastSnoc(before, p);
      ElementsSnoc(before, p);
      assert (Minus(kept, {p}) + Minus(last, {p})) + [p] == Minus(kept, {p}) + (Minus(last, {p}) + [p]);
    }
  }

  lemma ElementsSnoc(ps: seq<string>, p: string)
    ensures Elements(ps + [p]) == Elements(ps) + {p}
  {
  }

  lemma {:induction false} MinusNothing(paths: seq<string>)
    ensures Minus(paths, Elements([])) == paths && KeepLast([]) == []
  {
    if paths != [] { MinusNothing(paths[1..]); }
  }

  lemma PrependAllConcat(paths: seq<string>, a: seq<string>, b: seq<string>)
    ensures PrependAll(paths, a + b) == PrependAll(PrependAll(paths, a), b)
    decreases |b|
  {
    if b == [] {
      assert a + b == a;
    } else {
      var n := |b| - 1;
      assert (a + b)[..|a + b| - 1] == a + b[..n];
      PrependAllConcat(paths, a, b[..n]);
    }
  }

  lemma PrependAllTwice(paths: seq<string>, ps: seq<string>)
    ensures PrependAll(PrependAll(paths, ps), ps) == PrependAll(paths, ps)
  {
    hide PrependAll, Minus, KeepLast;
    var gone, last := Elements(ps), KeepLast(ps);
    forall x | x in last
      ensures x in gone
    {
      KeepLastMembers(ps, x);
    }
    PrependAllIs(paths, ps);
    PrependAllIs(PrependAll(paths, ps), ps);
    MinusConcat(Minus(paths, gone), last, gone);
    MinusMinus(paths, gone, gone);
    MinusAll(last, gone);
    assert gone + gone == gone;
  }

  lemma {:induction false} MinusNoRepeats(ps: seq<string>, gone: set<string>)
    requires NoRepeats(ps)
    ensures NoRepeats(Minus(ps, gone))
  {
    if ps != [] {
      MinusNoRepeats(ps[1..], gone);
      MinusMembers(ps[1..], gone, ps[0]);
      assert ps[0] !in ps[1..];
    }
  }

  lemma {:induction false} PrependAllNoRepeats(paths: seq<string>, ps: seq<string>)
    requires NoRepeats(paths)
    ensures NoRepeats(PrependAll(paths, ps))
    decreases |ps|
  {
    if ps != [] {
      PrependAllNoRepeats(paths, ps[..|ps| - 1]);
      MinusNoRepeats(PrependAll(paths, ps[..|ps| - 1]), {ps[|ps| - 1]});
      MinusMembers(PrependAll(paths, ps[..|ps| - 1]), {ps[|ps| - 1]}, ps[|ps| - 1]);
    }
  }
}

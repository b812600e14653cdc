/** What a name/value list holds after any sequence of writes, some of which may be refused by name. */
module WriteHistory {

  import opened Text
  import opened NameValues

  /** Two spellings of one name: the same text, or the same letters up to ASCII case. */
  predicate SameName(a: string, b: string, folded: bool)
  {
    if folded then SameLetters(a, b) else a == b
  }

  predicate NoneUnder(ws: seq<NameValue>, from: nat, to: nat, name: string, folded: bool)
    requires from <= to <= |ws|
  {
    forall i :: from <= i < to ==> !SameName(ws[i].name, name, folded)
  }

  ghost predicate LastUnder(ws: seq<NameValue>, name: string, value: string, folded: bool)
  {
    exists l :: 0 <= l < |ws| && SameName(ws[l].name, name, folded) && ws[l].value == value && NoneUnder(ws, l + 1, |ws|, name, folded)
  }

  ghost predicate Under(values: seq<NameValue>, name: string, folded: bool)
  {
    exists j :: 0 <= j < |values| && SameName(values[j].name, name, folded)
  }

  /** Entry `j` stems from write `firsts[j]`, the first under its name, whose spelling it keeps; it has the value of
      the last write under its name; and the entries are in the order of those first writes. Every allowed write has
      its entry, and no other write has one. */
  ghost predicate HoldsWrites(values: seq<NameValue>, ws: seq<NameValue>, folded: bool, allowed: string -> bool, firsts: seq<nat>)
  {
    && |firsts| == |values|
    && (forall j, k :: 0 <= j < k < |firsts| ==> firsts[j] < firsts[k])
    && (forall j :: 0 <= j < |values| ==> Stems(values[j], ws, firsts[j], folded, allowed))
    && (forall i :: 0 <= i < |ws| && allowed(ws[i].name) ==> Under(values, ws[i].name, folded))
  }

  ghost predicate Stems(entry: NameValue, ws: seq<NameValue>, first: nat, folded: bool, allowed: string -> bool)
  {
    && first < |ws| && entry.name == ws[first].name && allowed(entry.name) && NoneUnder(ws, 0, first, entry.name, folded)
    && LastUnder(ws, entry.name, entry.value, folded)
  }

  /** Equal names are allowed together. */
  ghost predicate Respects(allowed: string -> bool, folded: bool)
  {
    forall a, b :: SameName(a, b, folded) ==> (allowed(a) <==> allowed(b))
  }

  lemma KeysExactly(folded: bool)
    ensures forall a, b :: SameName(a, b, folded) <==> Key(a, folded) == Key(b, folded)
  {
    forall a: string, b: string
      ensures SameName(a, b, folded) <==> Key(a, folded) == Key(b, folded)
    {
      EqIgnoreCaseExactly(a, b);
    }
  }

  /** One entry for each name. */
  lemma HeldOnce(values: seq<NameValue>, ws: seq<NameValue>, folded: bool, allowed: string -> bool, firsts: seq<nat>)
    requires HoldsWrites(values, ws, folded, allowed, firsts)
    ensures forall j, k :: 0 <= j < k < |values| ==> !SameName(values[j].name, values[k].name, folded)
  {
    hide SameName, LastUnder;
    forall j, k | 0 <= j < k < |values|
      ensures !SameName(values[j].name, values[k].name, folded)
    {
      assert Stems(values[k], ws, firsts[k], folded, allowed) && Stems(values[j], ws, firsts[j], folded, allowed);
    }
  }

  /** The entry of a name that a further write uses again, or not. */
  lemma StemsOnward(entry: NameValue, ws: seq<NameValue>, w: NameValue, first: nat, folded: bool, allowed: string -> bool)
    requires Stems(entry, ws, first, folded, allowed)
    ensures var all := ws + [w];
            && (!SameName(w.name, entry.name, folded) ==> Stems(entry, all, first, folded, allowed))
            && (SameName(w.name, entry.name, folded) ==> Stems(NameValue(entry.name, w.value), all, first, folded, allowed))
  {
    hide SameName;
    var all := ws + [w];
    assert forall i :: 0 <= i < |ws| ==> all[i] == ws[i];
    if SameName(w.name, entry.name, folded) {
      assert all[|ws|] == w && NoneUnder(all, |ws| + 1, |all|, entry.name, folded);
    } else {
      var l :| 0 <= l < |ws| && SameName(ws[l].name, entry.name, folded) && ws[l].value == entry.value && NoneUnder(ws, l + 1, |ws|, entry.name, folded);
      assert NoneUnder(all, l + 1, |all|, entry.name, folded);
    }
  }

  /** A refused write changes nothing. */
  lemma RefusedWrite(values: seq<NameValue>, ws: seq<NameValue>, w: NameValue, folded: bool, allowed: string -> bool, firsts: seq<nat>)
    requires HoldsWrites(values, ws, folded, allowed, firsts) && Respects(allowed, folded) && !allowed(w.name)
    ensures HoldsWrites(values, ws + [w], folded, allowed, firsts)
  {
    hide SameName, Stems, Under;
    forall j | 0 <= j < |values|
      ensures Stems(values[j], ws + [w], firsts[j], folded, allowed)
    {
      StemsAllowed(values[j], ws, firsts[j], folded, allowed);
      StemsOnward(values[j], ws, w, firsts[j], folded, allowed);
    }
    assert forall i :: 0 <= i < |ws| ==> (ws + [w])[i] == ws[i];
  }

  lemma StemsAllowed(entry: NameValue, ws: seq<NameValue>, first: nat, folded: bool, allowed: string -> bool)
    requires Stems(entry, ws, first, folded, allowed)
    ensures allowed(entry.name)
  {
  }

  lemma SamePosition(values: seq<NameValue>, name: string, folded: bool)
    ensures var k := Position(values, Key(name, folded), folded);
            && (k < |values| ==> SameName(values[k].name, name, folded))
            && (k == |values| ==> !Under(values, name, folded))
            && k <= |values|
  {
    hide Key, SameName;
    KeysExactly(folded);
  }

  /** A write under a name that is held sets that entry's value. */
  lemma RepeatedWrite(values: seq<NameValue>, ws: seq<NameValue>, w: NameValue, folded: bool, allowed: string -> bool, firsts: seq<nat>, k: nat)
    requires HoldsWrites(values, ws, folded, allowed, firsts) && Respects(allowed, folded)
    requires k < |values| && SameName(values[k].name, w.name, folded)
    ensures HoldsWrites(values[k := NameValue(values[k].name, w.value)], ws + [w], folded, allowed, firsts)
  {
    hide SameName, Stems;
    var next := values[k := NameValue(values[k].name, w.value)];
    KeysExactly(folded);
    HeldOnce(values, ws, folded, allowed, firsts);
    forall j | 0 <= j < |values|
      ensures Stems(next[j], ws + [w], firsts[j], folded, allowed)
    {
      StemsOnward(values[j], ws, w, firsts[j], folded, allowed);
    }
    forall i | 0 <= i < |ws + [w]| && allowed((ws + [w])[i].name)
      ensures Under(next, (ws + [w])[i].name, folded)
    {
      if i < |ws| {
        assert Under(values, ws[i].name, folded);
        var j :| 0 <= j < |values| && SameName(values[j].name, ws[i].name, folded);
        assert next[j].name == values[j].name;
      } else {
        assert next[k].name == values[k].name;
      }
    }
  }

  /** No write used a name that is not held. */
  lemma NeverWritten(values: seq<NameValue>, ws: seq<NameValue>, name: string, folded: bool, allowed: string -> bool, firsts: seq<nat>)
    requires HoldsWrites(values, ws, folded, allowed, firsts) && Respects(allowed, folded)
    requires allowed(name) && !Under(values, name, folded)
    ensures NoneUnder(ws, 0, |ws|, name, folded)
  {
    hide SameName, Stems;
    KeysExactly(folded);
    forall i | 0 <= i < |ws|
      ensures !SameName(ws[i].name, name, folded)
    {
      if allowed(ws[i].name) {
        var j :| 0 <= j < |values| && SameName(values[j].name, ws[i].name, folded);
        assert !SameName(values[j].name, name, folded);
      }
    }
  }

  lemma NewStem(ws: seq<NameValue>, w: NameValue, folded: bool, allowed: string -> bool)
    requires allowed(w.name) && NoneUnder(ws, 0, |ws|, w.name, folded)
    ensures Stems(w, ws + [w], |ws|, folded, allowed)
  {
    hide SameName;
    KeysExactly(folded);
    var all := ws + [w];
    assert forall i :: 0 <= i < |ws| ==> all[i] == ws[i];
    assert all[|ws|] == w && NoneUnder(all, |ws| + 1, |all|, w.name, folded) && NoneUnder(all, 0, |ws|, w.name, folded);
  }

  /** Every name that had an entry has one among more entries, and so has the new one. */
  lemma UnderMore(values: seq<NameValue>, w: NameValue, folded: bool)
    ensures Under(values + [w], w.name, folded)
    ensures forall name :: Under(values, name, folded) ==> Under(values + [w], name, folded)
  {
    hide SameName;
    KeysExactly(folded);
    var next := values + [w];
    assert next[|values|] == w && SameName(w.name, w.name, folded);
    forall name | Under(values, name, folded)
      ensures Under(next, name, folded)
    {
      var j :| 0 <= j < |values| && SameName(values[j].name, name, folded);
      assert next[j] == values[j];
    }
  }

  /** A write under a new name adds an entry at the end. */
  lemma NewWrite(values: seq<NameValue>, ws: seq<NameValue>, w: NameValue, folded: bool, allowed: string -> bool, firsts: seq<nat>)
    requires HoldsWrites(values, ws, folded, allowed, firsts) && Respects(allowed, folded)
    requires allowed(w.name) && !Under(values, w.name, folded)
    ensures HoldsWrites(values + [w], ws + [w], folded, allowed, firsts + [|ws|])
  {
    NeverWritten(values, ws, w.name, folded, allowed, firsts);
    NewStem(ws, w, folded, allowed);
    UnderMore(values, w, folded);
    hide SameName, Stems, NoneUnder, Respects, Under;
    var next, all, more := values + [w], ws + [w], firsts + [|ws|];
    forall j | 0 <= j < |values|
      ensures Stems(next[j], all, more[j], folded, allowed) && firsts[j] < |ws|
    {
      StemsOnward(values[j], ws, w, firsts[j], folded, allowed);
      NotUnder(values, w.name, j, folded);
      StemsBefore(values[j], ws, firsts[j], folded, allowed);
    }
    assert forall i :: 0 <= i < |ws| ==> all[i] == ws[i];
  }

  lemma NotUnder(values: seq<NameValue>, name: string, j: nat, folded: bool)
    requires j < |values| && !Under(values, name, folded)
    ensures !SameName(name, values[j].name, folded)
  {
    hide SameName;
    KeysExactly(folded);
  }

  lemma StemsBefore(entry: NameValue, ws: seq<NameValue>, first: nat, folded: bool, allowed: string -> bool)
    requires Stems(entry, ws, first, folded, allowed)
    ensures first < |ws|
  {
  }

  lemma OneMoreWrite(values: seq<NameValue>, ws: seq<NameValue>, w: NameValue, folded: bool, allowed: string -> bool, firsts: seq<nat>)
      returns (more: seq<nat>)
    requires HoldsWrites(values, ws, folded, allowed, firsts) && Respects(allowed, folded)
    ensures HoldsWrites(if allowed(w.name) then Write(values, w, folded) else values, ws + [w], folded, allowed, more)
  {
    hide HoldsWrites, Respects, SameName, Under, Key;
    more := firsts;
    if !allowed(w.name) {
      RefusedWrite(values, ws, w, folded, allowed, firsts);
    } else {
      SamePosition(values, w.name, folded);
      var k := Position(values, Key(w.name, folded), folded);
      if k < |values| {
        RepeatedWrite(values, ws, w, folded, allowed, firsts, k);
      } else {
        NewWrite(values, ws, w, folded, allowed, firsts);
        more := firsts + [|ws|];
      }
    }
  }

  lemma NothingHeld(folded: bool, allowed: string -> bool)
    ensures HoldsWrites([], [], folded, allowed, [])
  {
  }

  predicate Anything(name: string)
  {
    true
  }

  /** After any writes, the list holds exactly them. */
  lemma {:induction false} WriteAllHoldsWrites(ws: seq<NameValue>, folded: bool) returns (firsts: seq<nat>)
    ensures HoldsWrites(WriteAll([], ws, folded), ws, folded, Anything, firsts)
    decreases |ws|
  {
    hide HoldsWrites, Write;
    if ws == [] {
      firsts := [];
      NothingHeld(folded, Anything);
    } else {
      var n := |ws| - 1;
      var before := WriteAllHoldsWrites(ws[..n], folded);
      assert ws == ws[..n] + [ws[n]];
      firsts := OneMoreWrite(WriteAll([], ws[..n], folded), ws[..n], ws[n], folded, Anything, before);
    }
  }
}

/** Windows materialization of an archive listing (crates/automata-ci-action/src/archive.rs):
    an online recorder decides whether the listed members form one unambiguous
    case-insensitive tree. Text is one `char` per byte. */
module WindowsNamespace {

  import opened Text

  type Path = seq<string>

  datatype ArchiveError = ResourceLimit | UnsafePath | DuplicatePath

  /** One directory or regular-file member, below the archive root. */
  datatype Entry = Entry(path: Path, isDirectory: bool)

  datatype Kind = ImplicitDirectory | Directory | File

  datatype Node = Node(spelling: string, kind: Kind)

  // ----- Names -----

  predicate SafeComponent(c: string)
  {
    c != "" && '\\' !in c
  }

  predicate SafePath(p: Path)
  {
    forall i :: 0 <= i < |p| ==> SafeComponent(p[i])
  }

  function FoldPath(p: Path): (r: Path)
    ensures |r| == |p|
    ensures forall i :: 0 <= i < |p| ==> r[i] == Lower(p[i])
  {
    seq(|p|, i requires 0 <= i < |p| => Lower(p[i]))
  }

  function Spelling(p: Path): string
  {
    Join(p, '\\')
  }

  function Folded(p: Path): string
  {
    Join(FoldPath(p), '\\')
  }

  lemma FoldKeepsSafe(p: Path)
    requires SafePath(p)
    ensures SafePath(FoldPath(p))
  {
    forall i | 0 <= i < |p|
      ensures SafeComponent(FoldPath(p)[i])
    {
      assert |Lower(p[i])| == |p[i]|;
    }
  }

  lemma JoinNonEmpty(p: Path)
    requires SafePath(p) && p != []
    ensures Join(p, '\\') != ""
  {
    assert SafeComponent(p[0]);
  }

  /** Joining with backslashes identifies no two safe paths. */
  lemma SpellingInjective(p: Path, q: Path)
    requires SafePath(p) && SafePath(q)
    ensures Spelling(p) == Spelling(q) <==> p == q
  {
    if Spelling(p) == Spelling(q) {
      if p == [] || q == [] {
        if p != [] { JoinNonEmpty(p); }
        if q != [] { JoinNonEmpty(q); }
      } else {
        JoinInjective(p, q, '\\');
      }
    }
  }

  lemma FoldedInjective(p: Path, q: Path)
    requires SafePath(p) && SafePath(q)
    ensures Folded(p) == Folded(q) <==> FoldPath(p) == FoldPath(q)
  {
    FoldKeepsSafe(p);
    FoldKeepsSafe(q);
    SpellingInjective(FoldPath(p), FoldPath(q));
  }

  lemma FoldPathPrefix(p: Path, i: nat)
    requires i <= |p|
    ensures FoldPath(p[..i]) == FoldPath(p)[..i]
  {
  }

  // ----- The declarative property -----

  /** The summed length of a set of keys. */
  ghost function TotalLength(keys: set<string>): nat
  {
    if keys == {} then 0 else
      var k :| k in keys;
      |k| + TotalLength(keys - {k})
  }

  lemma {:induction false} TotalLengthAdd(keys: set<string>, x: string)
    requires x !in keys
    ensures TotalLength(keys + {x}) == TotalLength(keys) + |x|
    decreases |keys|
  {
    var all := keys + {x};
    var k :| k in all && TotalLength(all) == |k| + TotalLength(all - {k});
    if k == x {
      assert all - {x} == keys;
    } else {
      assert all - {k} == (keys - {k}) + {x};
      TotalLengthAdd(keys - {k}, x);
      TotalLengthAdd(keys - {k}, k);
      assert (keys - {k}) + {k} == keys;
    }
  }

  lemma {:induction false} TotalLengthMonotone(a: set<string>, b: set<string>)
    requires a <= b
    ensures TotalLength(a) <= TotalLength(b)
    decreases |b - a|
  {
    if a != b {
      assert exists x :: x in b && x !in a;
      var x :| x in b && x !in a;
      TotalLengthAdd(a, x);
      assert b - (a + {x}) == (b - a) - {x};
      TotalLengthMonotone(a + {x}, b);
    }
  }

  ghost function FoldedPrefixes(m: multiset<Entry>): set<string>
  {
    set e, i | e in m && 0 <= i <= |e.path| :: Folded(e.path[..i])
  }

  /** The listed members form one case-insensitive tree. Nothing here depends on their order. */
  ghost predicate TreeShaped(m: multiset<Entry>)
  {
    // Explicit members are pairwise distinct after case folding.
    && (forall e :: e in m ==> m[e] == 1)
    && (forall e, f :: e in m && f in m && e != f ==> FoldPath(e.path) != FoldPath(f.path))
    // No file is a proper ancestor of another member.
    && (forall e, f :: e in m && f in m && !e.isDirectory && |e.path| < |f.path| ==>
          FoldPath(e.path) != FoldPath(f.path[..|e.path|]))
    // Prefixes that fold alike are spelled alike.
    && (forall e, f, i :: e in m && f in m && 0 <= i <= |e.path| && i <= |f.path| ==>
          FoldPath(e.path[..i]) == FoldPath(f.path[..i]) ==> e.path[..i] == f.path[..i])
  }

  ghost predicate Unambiguous(m: multiset<Entry>, maximumIndexBytes: nat)
  {
    TreeShaped(m) && TotalLength(FoldedPrefixes(m)) <= maximumIndexBytes
  }

  // ----- The recorder -----

  /** The map and byte counter the recorder updates. */
  datatype Index = Index(paths: map<string, Node>, bytes: nat)

  /** `record_windows_namespace_path`. */
  function RecordPath(index: Index, folded: string, spelling: string, kind: Kind, maximum: nat): Result<Index, ArchiveError>
  {
    if folded in index.paths then
      var existing := index.paths[folded];
      if existing.spelling != spelling then Err(DuplicatePath)
      else match (existing.kind, kind)
        case (ImplicitDirectory, ImplicitDirectory) => Ok(index)
        case (Directory, ImplicitDirectory) => Ok(index)
        case (ImplicitDirectory, Directory) =>
          Ok(index.(paths := index.paths[folded := existing.(kind := Directory)]))
        case _ => Err(DuplicatePath)
    else if index.bytes + |folded| > maximum then Err(ResourceLimit)
    else Ok(Index(index.paths[folded := Node(spelling, kind)], index.bytes + |folded|))
  }

  function KindAt(e: Entry, i: nat): Kind
  {
    if i < |e.path| then ImplicitDirectory else if e.isDirectory then Directory else File
  }

  /** One recording: a prefix of the member at a position of the listing. */
  datatype Item = Item(position: nat, path: Path, kind: Kind)

  function ItemAt(position: nat, e: Entry, i: nat): Item
    requires i <= |e.path|
  {
    Item(position, e.path[..i], KindAt(e, i))
  }

  predicate KindsCompatible(a: Kind, b: Kind)
  {
    a != File && b != File && (a == ImplicitDirectory || b == ImplicitDirectory)
  }

  predicate Clash(x: Item, y: Item)
  {
    && x != y && FoldPath(x.path) == FoldPath(y.path)
    && (x.path != y.path || !KindsCompatible(x.kind, y.kind))
  }

  ghost predicate ClashFree(done: set<Item>)
  {
    forall x, y :: x in done && y in done ==> !Clash(x, y)
  }

  ghost predicate SafeItems(done: set<Item>)
  {
    forall x :: x in done ==> SafePath(x.path)
  }

  ghost function Keys(done: set<Item>): set<string>
  {
    set x | x in done :: Folded(x.path)
  }

  /** The map holds exactly the recorded prefixes, each with its spelling and strongest kind. */
  ghost predicate Represents(index: Index, done: set<Item>)
  {
    && SafeItems(done)
    && index.bytes == TotalLength(index.paths.Keys)
    && (forall x :: x in done ==> Folded(x.path) in index.paths)
    && (forall x :: x in done ==> index.paths[Folded(x.path)].spelling == Spelling(x.path))
    && (forall x :: x in done && x.kind != ImplicitDirectory ==> index.paths[Folded(x.path)].kind == x.kind)
    && (forall k :: k in index.paths ==>
          exists x :: x in done && Folded(x.path) == k && index.paths[k].kind == x.kind)
  }

  lemma RepresentedKeys(index: Index, done: set<Item>)
    requires Represents(index, done)
    ensures index.paths.Keys == Keys(done) && index.bytes == TotalLength(Keys(done))
  {
    assert forall k :: k in Keys(done) <==> k in index.paths;
  }

  /** A prefix seen before is accepted exactly when it clashes with nothing recorded. */
  lemma RecordKnownPath(index: Index, done: set<Item>, y: Item, maximum: nat)
    requires Represents(index, done) && ClashFree(done) && SafePath(y.path) && y !in done
    requires Folded(y.path) in index.paths
    ensures var r := RecordPath(index, Folded(y.path), Spelling(y.path), y.kind, maximum);
            && (r.Ok? <==> ClashFree(done + {y})) && (r.Err? ==> r.error == DuplicatePath)
            && (r.Ok? ==> Represents(r.value, done + {y}) && r.value.bytes == index.bytes)
  {
    hide Folded, Spelling, FoldPath, TotalLength, SafePath;
    var k := Folded(y.path);
    var x :| x in done && Folded(x.path) == k && index.paths[k].kind == x.kind;
    forall z | z in done
      ensures Folded(z.path) == k <==> FoldPath(z.path) == FoldPath(y.path)
      ensures Spelling(z.path) == Spelling(y.path) <==> z.path == y.path
    {
      FoldedInjective(z.path, y.path);
      SpellingInjective(z.path, y.path);
    }
    var r := RecordPath(index, k, Spelling(y.path), y.kind, maximum);
    if r.Ok? {
      assert r.value.paths.Keys == index.paths.Keys;
      KnownPathClashFree(index, done, y);
      KnownPathAccepted(index, done, y, r.value);
    } else {
      assert Clash(x, y) && x in done + {y} && y in done + {y};
    }
  }

  /** The recorded node for `y` is spelled as `y` and compatible with it. */
  predicate Agrees(index: Index, y: Item)
  {
    && Folded(y.path) in index.paths
    && index.paths[Folded(y.path)].spelling == Spelling(y.path)
    && KindsCompatible(index.paths[Folded(y.path)].kind, y.kind)
  }

  lemma KnownPathClashFree(index: Index, done: set<Item>, y: Item)
    requires Represents(index, done) && ClashFree(done) && SafePath(y.path) && y !in done
    requires Agrees(index, y)
    ensures ClashFree(done + {y})
  {
    hide Folded, Spelling, FoldPath, TotalLength;
    forall z | z in done
      ensures !Clash(z, y) && !Clash(y, z)
    {
      FoldedInjective(z.path, y.path);
      SpellingInjective(z.path, y.path);
    }
  }

  lemma KnownPathAccepted(index: Index, done: set<Item>, y: Item, after: Index)
    requires Represents(index, done) && SafePath(y.path) && Agrees(index, y)
    requires after.bytes == index.bytes
    requires after.paths == index.paths[Folded(y.path) :=
      Node(Spelling(y.path), if y.kind == Directory then Directory else index.paths[Folded(y.path)].kind)]
    ensures Represents(after, done + {y})
  {
    hide Folded, Spelling, FoldPath, TotalLength, SafePath;
    var k := Folded(y.path);
    assert after.paths.Keys == index.paths.Keys;
    forall j | j in after.paths
      ensures exists x :: x in done + {y} && Folded(x.path) == j && after.paths[j].kind == x.kind
    {
      var x :| x in done && Folded(x.path) == j && index.paths[j].kind == x.kind;
      if j == k && y.kind == Directory {
        assert y in done + {y};
      } else {
        assert x in done + {y};
      }
    }
  }

  /** A new prefix clashes with nothing; only the byte bound can refuse it. */
  lemma RecordNewPath(index: Index, done: set<Item>, y: Item, maximum: nat)
    requires Represents(index, done) && ClashFree(done) && SafePath(y.path)
    requires Folded(y.path) !in index.paths
    ensures ClashFree(done + {y})
    ensures var r := RecordPath(index, Folded(y.path), Spelling(y.path), y.kind, maximum);
            && (r.Ok? <==> TotalLength(Keys(done + {y})) <= maximum) && (r.Err? ==> r.error == ResourceLimit)
            && (r.Ok? ==> Represents(r.value, done + {y}))
  {
    hide Folded, Spelling, FoldPath, TotalLength;
    var k := Folded(y.path);
    forall z | z in done
      ensures FoldPath(z.path) != FoldPath(y.path)
    {
      FoldedInjective(z.path, y.path);
    }
    RepresentedKeys(index, done);
    TotalLengthAdd(index.paths.Keys, k);
    assert Keys(done + {y}) == Keys(done) + {k};
    var after := Index(index.paths[k := Node(Spelling(y.path), y.kind)], index.bytes + |k|);
    assert after.paths.Keys == index.paths.Keys + {k};
    forall j | j in after.paths
      ensures exists x :: x in done + {y} && Folded(x.path) == j && after.paths[j].kind == x.kind
    {
      if j == k {
        assert y in done + {y};
      } else {
        var x :| x in done && Folded(x.path) == j && index.paths[j].kind == x.kind;
        assert x in done + {y};
      }
    }
  }

  ghost predicate Acceptable(done: set<Item>, maximum: nat)
  {
    ClashFree(done) && TotalLength(Keys(done)) <= maximum
  }

  /** One recording is accepted exactly when the recorded prefixes stay clash-free and in bounds. */
  lemma RecordPathExact(index: Index, done: set<Item>, y: Item, maximum: nat)
    requires Represents(index, done) && Acceptable(done, maximum) && SafePath(y.path) && y !in done
    ensures var r := RecordPath(index, Folded(y.path), Spelling(y.path), y.kind, maximum);
            && (r.Ok? <==> Acceptable(done + {y}, maximum))
            && (r.Err? ==> r.error == if ClashFree(done + {y}) then ResourceLimit else DuplicatePath)
            && (r.Ok? ==> Represents(r.value, done + {y}))
  {
    hide Folded, Spelling, FoldPath, RecordPath, Clash, Represents;
    RepresentedKeys(index, done);
    if Folded(y.path) in index.paths {
      RecordKnownPath(index, done, y, maximum);
      assert Keys(done + {y}) == Keys(done);
    } else {
      RecordNewPath(index, done, y, maximum);
    }
  }

  lemma AcceptableSubset(a: set<Item>, b: set<Item>, maximum: nat)
    requires a <= b && Acceptable(b, maximum)
    ensures Acceptable(a, maximum)
  {
    TotalLengthMonotone(Keys(a), Keys(b));
  }

  /** What an error of the recorder says of the recordings. */
  ghost predicate Overloads(done: set<Item>, maximum: nat, e: ArchiveError)
  {
    match e
    case DuplicatePath => !ClashFree(done)
    case ResourceLimit => TotalLength(Keys(done)) > maximum
    case UnsafePath => false
  }

  lemma OverloadGrows(a: set<Item>, b: set<Item>, maximum: nat, e: ArchiveError)
    requires a <= b && !Acceptable(a, maximum) && e == if ClashFree(a) then ResourceLimit else DuplicatePath
    ensures !Acceptable(b, maximum) && Overloads(b, maximum, e)
  {
    TotalLengthMonotone(Keys(a), Keys(b));
  }

  /** The recordings of the first `n` prefixes of one member. */
  ghost function EntryItems(position: nat, e: Entry, n: nat): set<Item>
    requires n <= |e.path| + 1
  {
    set i | 0 <= i < n :: ItemAt(position, e, i)
  }

  ghost function AllItems(entries: seq<Entry>): set<Item>
  {
    set a, i | 0 <= a < |entries| && 0 <= i <= |entries[a].path| :: ItemAt(a, entries[a], i)
  }

  lemma SpellingStep(p: Path, i: nat)
    requires i < |p|
    ensures Spelling(p[..i + 1]) == (if i == 0 then "" else Spelling(p[..i]) + "\\") + p[i]
  {
    assert p[..i + 1] == p[..i] + [p[i]];
    if i > 0 { JoinSnoc(p[..i], p[i], '\\'); }
  }

  lemma FoldedStep(p: Path, i: nat)
    requires i < |p|
    ensures Folded(p[..i + 1]) == (if i == 0 then "" else Folded(p[..i]) + "\\") + Lower(p[i])
  {
    SpellingStep(FoldPath(p), i);
    FoldPathPrefix(p, i);
    FoldPathPrefix(p, i + 1);
  }

  /** `record_windows_relative_namespace` for the member at `position`. */
  method RecordRelative(index: Index, e: Entry, maximum: nat, ghost position: nat, ghost done: set<Item>)
    returns (r: Result<Index, ArchiveError>)
    requires SafePath(e.path) && Represents(index, done) && Acceptable(done, maximum)
    requires forall x :: x in done ==> x.position != position
    ensures r.Ok? <==> Acceptable(done + EntryItems(position, e, |e.path| + 1), maximum)
    ensures r.Ok? ==> Represents(r.value, done + EntryItems(position, e, |e.path| + 1))
    ensures r.Err? ==> Overloads(done + EntryItems(position, e, |e.path| + 1), maximum, r.error)
  {
    hide RecordPath, Represents, Acceptable, FoldPath, Spelling, TotalLength, Overloads, ClashFree;
    ghost var all := done + EntryItems(position, e, |e.path| + 1);
    ghost var now := done + EntryItems(position, e, 1);
    FirstItem(position, e, done);
    RecordPathExact(index, done, ItemAt(position, e, 0), maximum);
    var kind := if |e.path| == 0 then (if e.isDirectory then Directory else File) else ImplicitDirectory;
    r := RecordPath(index, "", "", kind, maximum);
    if r.Err? {
      OverloadGrows(now, all, maximum, r.error);
      return;
    }
    var spelling, folded := "", "";
    for i := 0 to |e.path|
      invariant r.Ok? && Represents(r.value, done + EntryItems(position, e, i + 1))
      invariant Acceptable(done + EntryItems(position, e, i + 1), maximum)
      invariant spelling == Spelling(e.path[..i]) && folded == Folded(e.path[..i])
    {
      if i > 0 {
        spelling := spelling + "\\";
        folded := folded + "\\";
      }
      spelling := spelling + e.path[i];
      folded := folded + Lower(e.path[i]);
      SpellingStep(e.path, i);
      FoldedStep(e.path, i);
      kind := if i + 1 != |e.path| then ImplicitDirectory else if e.isDirectory then Directory else File;
      ghost var before, y := done + EntryItems(position, e, i + 1), ItemAt(position, e, i + 1);
      now := done + EntryItems(position, e, i + 2);
      NextItem(position, e, i + 1, done);
      RecordPathExact(r.value, before, y, maximum);
      r := RecordPath(r.value, folded, spelling, kind, maximum);
      if r.Err? {
        OverloadGrows(now, all, maximum, r.error);
        return;
      }
    }
  }

  lemma FirstItem(position: nat, e: Entry, done: set<Item>)
    ensures done + EntryItems(position, e, 1) == done + {ItemAt(position, e, 0)}
    ensures Folded(e.path[..0]) == "" && Spelling(e.path[..0]) == ""
  {
    assert ItemAt(position, e, 0) in EntryItems(position, e, 1);
  }

  lemma NextItem(position: nat, e: Entry, n: nat, done: set<Item>)
    requires n <= |e.path| && forall x :: x in done ==> x.position != position
    ensures done + EntryItems(position, e, n + 1) == (done + EntryItems(position, e, n)) + {ItemAt(position, e, n)}
    ensures ItemAt(position, e, n) !in done + EntryItems(position, e, n)
  {
    forall i | 0 <= i < n
      ensures ItemAt(position, e, i) != ItemAt(position, e, n)
    {
      assert |ItemAt(position, e, i).path| == i && |ItemAt(position, e, n).path| == n;
    }
  }

  // ----- Recordings against members -----

  lemma ItemOf(entries: seq<Entry>, x: Item) returns (a: nat, i: nat)
    requires x in AllItems(entries)
    ensures a < |entries| && i <= |entries[a].path| && x == ItemAt(a, entries[a], i) && i == |x.path|
  {
    a, i :| 0 <= a < |entries| && 0 <= i <= |entries[a].path| && x == ItemAt(a, entries[a], i);
  }

  lemma ItemIn(entries: seq<Entry>, a: nat, i: nat)
    requires a < |entries| && i <= |entries[a].path|
    ensures ItemAt(a, entries[a], i) in AllItems(entries) && entries[a] in multiset(entries)
  {
  }

  /** A tree-shaped listing records without clashes. */
  lemma TreeIsClashFree(entries: seq<Entry>)
    requires TreeShaped(multiset(entries))
    ensures ClashFree(AllItems(entries))
  {
    forall x, y | x in AllItems(entries) && y in AllItems(entries)
      ensures !Clash(x, y)
    {
      var a, i := ItemOf(entries, x);
      var b, j := ItemOf(entries, y);
      ItemIn(entries, a, i);
      ItemIn(entries, b, j);
      if x != y && FoldPath(x.path) == FoldPath(y.path) {
        assert i == |FoldPath(x.path)| == j;
        var e, f := entries[a], entries[b];
        assert a != b;
        if e == f {
          if a < b { CountTwice(entries, a, b); } else { CountTwice(entries, b, a); }
        }
        assert e.path[..i] == f.path[..i];
        assert i == |e.path| ==> e.path[..i] == e.path;
        assert i == |f.path| ==> f.path[..i] == f.path;
      }
    }
  }

  lemma ClashFreePair(entries: seq<Entry>, a: nat, b: nat, i: nat)
    requires ClashFree(AllItems(entries))
    requires a < |entries| && b < |entries| && a != b && i <= |entries[a].path| && i <= |entries[b].path|
    ensures FoldPath(entries[a].path[..i]) == FoldPath(entries[b].path[..i]) ==>
              && entries[a].path[..i] == entries[b].path[..i]
              && KindsCompatible(KindAt(entries[a], i), KindAt(entries[b], i))
  {
    ItemIn(entries, a, i);
    ItemIn(entries, b, i);
    var x, y := ItemAt(a, entries[a], i), ItemAt(b, entries[b], i);
    assert !Clash(x, y);
  }

  lemma ClashFreeDistinct(entries: seq<Entry>, a: nat, b: nat)
    requires ClashFree(AllItems(entries)) && a < |entries| && b < |entries| && a != b
    ensures FoldPath(entries[a].path) != FoldPath(entries[b].path)
  {
    hide ClashFree, AllItems, FoldPath;
    var e, f := entries[a], entries[b];
    if FoldPath(e.path) == FoldPath(f.path) {
      assert |e.path| == |FoldPath(e.path)| == |f.path|;
      assert e.path[..|e.path|] == e.path && f.path[..|e.path|] == f.path;
      ClashFreePair(entries, a, b, |e.path|);
    }
  }

  lemma ClashFreeAncestor(entries: seq<Entry>, a: nat, b: nat)
    requires ClashFree(AllItems(entries)) && a < |entries| && b < |entries|
    requires !entries[a].isDirectory && |entries[a].path| < |entries[b].path|
    ensures FoldPath(entries[a].path) != FoldPath(entries[b].path[..|entries[a].path|])
  {
    hide ClashFree, AllItems, FoldPath;
    var e := entries[a];
    assert e.path[..|e.path|] == e.path;
    ClashFreePair(entries, a, b, |e.path|);
  }

  lemma ClashFreeSpelling(entries: seq<Entry>, a: nat, b: nat, i: nat)
    requires ClashFree(AllItems(entries)) && a < |entries| && b < |entries| && i <= |entries[a].path| && i <= |entries[b].path|
    requires FoldPath(entries[a].path[..i]) == FoldPath(entries[b].path[..i])
    ensures entries[a].path[..i] == entries[b].path[..i]
  {
    hide ClashFree, AllItems, FoldPath;
    if a != b { ClashFreePair(entries, a, b, i); }
  }

  /** A listing that records without clashes is tree-shaped. */
  lemma ClashFreeIsTree(entries: seq<Entry>)
    requires ClashFree(AllItems(entries))
    ensures TreeShaped(multiset(entries))
  {
    hide ClashFree, AllItems, FoldPath;
    var m := multiset(entries);
    forall e | e in m
      ensures m[e] == 1
    {
      if m[e] >= 2 {
        var a, b := TwoOfCount(entries, e);
        ClashFreeDistinct(entries, a, b);
      }
    }
    forall e, f | e in m && f in m && e != f
      ensures FoldPath(e.path) != FoldPath(f.path)
    {
      var a :| 0 <= a < |entries| && entries[a] == e;
      var b :| 0 <= b < |entries| && entries[b] == f;
      ClashFreeDistinct(entries, a, b);
    }
    forall e, f | e in m && f in m && !e.isDirectory && |e.path| < |f.path|
      ensures FoldPath(e.path) != FoldPath(f.path[..|e.path|])
    {
      var a :| 0 <= a < |entries| && entries[a] == e;
      var b :| 0 <= b < |entries| && entries[b] == f;
      ClashFreeAncestor(entries, a, b);
    }
    forall e, f, i | e in m && f in m && 0 <= i <= |e.path| && i <= |f.path| && FoldPath(e.path[..i]) == FoldPath(f.path[..i])
      ensures e.path[..i] == f.path[..i]
    {
      var a :| 0 <= a < |entries| && entries[a] == e;
      var b :| 0 <= b < |entries| && entries[b] == f;
      ClashFreeSpelling(entries, a, b, i);
    }
  }

  lemma AllKeys(entries: seq<Entry>)
    ensures Keys(AllItems(entries)) == FoldedPrefixes(multiset(entries))
  {
    forall k | k in Keys(AllItems(entries))
      ensures k in FoldedPrefixes(multiset(entries))
    {
      var x :| x in AllItems(entries) && Folded(x.path) == k;
      var a, i := ItemOf(entries, x);
      assert entries[a] in multiset(entries);
    }
    forall k | k in FoldedPrefixes(multiset(entries))
      ensures k in Keys(AllItems(entries))
    {
      var e, i :| e in multiset(entries) && 0 <= i <= |e.path| && Folded(e.path[..i]) == k;
      var a :| 0 <= a < |entries| && entries[a] == e;
      ItemIn(entries, a, i);
      assert Folded(ItemAt(a, e, i).path) == k;
    }
  }

  lemma AcceptableIsUnambiguous(entries: seq<Entry>, maximum: nat)
    ensures Acceptable(AllItems(entries), maximum) <==> Unambiguous(multiset(entries), maximum)
  {
    AllKeys(entries);
    if ClashFree(AllItems(entries)) { ClashFreeIsTree(entries); }
    if TreeShaped(multiset(entries)) { TreeIsClashFree(entries); }
  }

  lemma AllItemsStep(entries: seq<Entry>, a: nat)
    requires a < |entries|
    ensures AllItems(entries[..a + 1]) == AllItems(entries[..a]) + EntryItems(a, entries[a], |entries[a].path| + 1)
    ensures forall x :: x in AllItems(entries[..a]) ==> x.position != a
    ensures AllItems(entries[..a + 1]) <= AllItems(entries)
  {
    var now, next := entries[..a], entries[..a + 1];
    forall x | x in AllItems(next)
      ensures x in AllItems(now) + EntryItems(a, entries[a], |entries[a].path| + 1)
      ensures x in AllItems(entries)
    {
      var b, i := ItemOf(next, x);
      ItemIn(entries, b, i);
      if b < a { ItemIn(now, b, i); }
    }
    forall x | x in AllItems(now)
      ensures x in AllItems(next) && x.position != a
    {
      var b, i := ItemOf(now, x);
      ItemIn(next, b, i);
    }
    forall x | x in EntryItems(a, entries[a], |entries[a].path| + 1)
      ensures x in AllItems(next)
    {
      var i :| 0 <= i < |entries[a].path| + 1 && x == ItemAt(a, entries[a], i);
      ItemIn(next, a, i);
    }
  }

  lemma NothingRecorded(maximum: nat)
    ensures Represents(Index(map[], 0), AllItems([])) && Acceptable(AllItems([]), maximum)
  {
    assert AllItems([]) == {};
    assert Keys({}) == {};
  }

  // ----- Member paths -----

  datatype Member = Member(raw: string, isDirectory: bool)

  datatype Limits = Limits(maximumEntries: nat, maximumPathBytes: nat, maximumIndexBytes: nat)

  predicate IsAsciiControl(c: char)
  {
    c as int < 0x20 || c as int == 0x7F
  }

  predicate CleanByte(c: char)
  {
    c != '\\' && !IsAsciiControl(c)
  }

  predicate PlainName(c: string)
  {
    c != "" && c != "." && c != ".."
  }

  predicate AllPlain(p: Path)
  {
    forall i :: 0 <= i < |p| ==> PlainName(p[i])
  }

  predicate ProperComponent(c: string)
  {
    PlainName(c) && '/' !in c && forall x :: x in c ==> CleanByte(x)
  }

  predicate ProperPath(p: Path)
  {
    p != [] && forall i :: 0 <= i < |p| ==> ProperComponent(p[i])
  }

  predicate CleanPath(raw: string)
  {
    raw != "" && raw[0] != '/' && forall x :: x in raw ==> CleanByte(x)
  }

  /** `archive_components`. */
  function ArchiveComponents(raw: string): Result<Path, ArchiveError>
  {
    if !CleanPath(raw) then Err(UnsafePath) else
      var parts := Split(raw, '/');
      var components := if parts[|parts| - 1] == "" then parts[..|parts| - 1] else parts;
      if components != [] && AllPlain(components) then Ok(components) else Err(UnsafePath)
  }

  /** Exactly the canonical relative paths parse, with at most one trailing slash. */
  lemma ArchiveComponentsExact(raw: string, p: Path)
    ensures ArchiveComponents(raw) == Ok(p) <==>
              ProperPath(p) && (raw == Join(p, '/') || raw == Join(p, '/') + "/")
  {
    if ArchiveComponents(raw) == Ok(p) {
      ComponentsAreProper(raw, p);
    }
    if ProperPath(p) && (raw == Join(p, '/') || raw == Join(p, '/') + "/") {
      ProperPathParses(raw, p);
    }
  }

  lemma PartIsProper(raw: string, i: nat)
    requires CleanPath(raw) && i < |Split(raw, '/')| && PlainName(Split(raw, '/')[i])
    ensures ProperComponent(Split(raw, '/')[i])
  {
    hide Join, Split, CleanByte, PlainName;
    JoinOfSplit(raw, '/');
    forall x | x in Split(raw, '/')[i]
      ensures CleanByte(x)
    {
      PartInJoin(Split(raw, '/'), '/', i, x);
    }
  }

  lemma ComponentsAreProper(raw: string, p: Path)
    requires ArchiveComponents(raw) == Ok(p)
    ensures ProperPath(p) && (raw == Join(p, '/') || raw == Join(p, '/') + "/")
  {
    hide Join, CleanPath, PlainName, ProperComponent;
    var parts := Split(raw, '/');
    JoinOfSplit(raw, '/');
    forall i | 0 <= i < |p|
      ensures ProperComponent(p[i])
    {
      assert PlainName(p[i]) && p[i] == parts[i];
      PartIsProper(raw, i);
    }
    if parts[|parts| - 1] == "" {
      assert parts == p + [""];
      JoinSnoc(p, "", '/');
    }
  }

  lemma {:induction false} PartInJoin(parts: Path, sep: char, i: nat, c: char)
    requires i < |parts| && c in parts[i]
    ensures c in Join(parts, sep)
    decreases i
  {
    if i > 0 { PartInJoin(parts[1..], sep, i - 1, c); }
  }

  lemma ProperPathIsClean(p: Path)
    requires ProperPath(p)
    ensures CleanPath(Join(p, '/'))
  {
    assert ProperComponent(p[0]);
    assert Join(p, '/')[0] == p[0][0];
    forall c | c in Join(p, '/')
      ensures CleanByte(c)
    {
      InJoin(p, '/', c);
      if c != '/' {
        var i :| 0 <= i < |p| && c in p[i];
        assert ProperComponent(p[i]);
      }
    }
  }

  lemma ProperPathParses(raw: string, p: Path)
    requires ProperPath(p) && (raw == Join(p, '/') || raw == Join(p, '/') + "/")
    ensures ArchiveComponents(raw) == Ok(p)
  {
    hide Join, Split;
    ProperPathIsClean(p);
    assert forall i :: 0 <= i < |p| ==> ProperComponent(p[i]);
    if raw == Join(p, '/') {
      SplitOfJoin(p, '/');
      assert ProperComponent(p[|p| - 1]);
    } else {
      assert CleanByte('/');
      JoinSnoc(p, "", '/');
      SplitOfJoin(p + [""], '/');
      assert raw == Join(p + [""], '/');
      assert (p + [""])[..|p|] == p;
    }
  }

  /** `rposition` of a byte that is not a space or a dot, plus one. */
  function TrimmedLength(s: string): (n: nat)
    ensures n <= |s|
  {
    if s == "" then 0
    else if s[|s| - 1] == ' ' || s[|s| - 1] == '.' then TrimmedLength(s[..|s| - 1])
    else |s|
  }

  function LastTilde(s: string): (n: int)
    ensures -1 <= n < |s|
  {
    if s == "" then -1 else if s[|s| - 1] == '~' then |s| - 1 else LastTilde(s[..|s| - 1])
  }

  /** `windows_short_name_shaped`. */
  predicate ShortNameShaped(stem: string)
  {
    var tilde := LastTilde(stem);
    && 0 < tilde <= 6 && tilde + 1 < |stem| && '1' <= stem[tilde + 1] <= '9'
    && forall i :: tilde + 2 <= i < |stem| ==> IsDigit(stem[i])
  }

  /** `valid_windows_archive_component`. */
  predicate ValidWindowsComponent(c: string)
  {
    && c != "" && c[|c| - 1] != ' ' && c[|c| - 1] != '.'
    && (forall i :: 0 <= i < |c| ==>
          c[i] as int < 0x80 && !IsAsciiControl(c[i]) && c[i] !in ['<', '>', ':', '"', '|', '?', '*'])
    && (c[0] == '.' || ValidStem(c[..IndexOf(c, '.')]))
  }

  predicate ValidStem(dotted: string)
  {
    var stem := dotted[..TrimmedLength(dotted)];
    var lower := Lower(stem);
    && stem != "" && !ShortNameShaped(stem)
    && lower !in ["con", "prn", "aux", "nul", "clock$", "conin$", "conout$"]
    && !(|lower| == 4 && lower[..3] in ["com", "lpt"] && '1' <= lower[3] <= '9')
  }

  predicate ValidMember(m: Member, limits: Limits)
  {
    && |m.raw| <= limits.maximumPathBytes
    && ArchiveComponents(m.raw).Ok?
    && forall i :: 0 <= i < |ArchiveComponents(m.raw).value| ==> ValidWindowsComponent(ArchiveComponents(m.raw).value[i])
  }

  function RootOf(m: Member): string
  {
    var r := ArchiveComponents(m.raw);
    if r.Ok? && r.value != [] then r.value[0] else ""
  }

  function RelativeOf(m: Member): Entry
  {
    var r := ArchiveComponents(m.raw);
    Entry(if r.Ok? && r.value != [] then r.value[1..] else [], m.isDirectory)
  }

  function Relatives(listing: seq<Member>): (r: seq<Entry>)
    ensures |r| == |listing|
    ensures forall i :: 0 <= i < |listing| ==> r[i] == RelativeOf(listing[i])
  {
    seq(|listing|, i requires 0 <= i < |listing| => RelativeOf(listing[i]))
  }

  ghost predicate MembersValid(listing: seq<Member>, limits: Limits)
  {
    && |listing| <= limits.maximumEntries
    && (forall m :: m in listing ==> ValidMember(m, limits))
    && (forall m, n :: m in listing && n in listing ==> RootOf(m) == RootOf(n))
  }

  /** What the validator is for: valid names under one root, forming one unambiguous tree. */
  ghost predicate Materializable(listing: seq<Member>, limits: Limits)
  {
    MembersValid(listing, limits) && Unambiguous(multiset(Relatives(listing)), limits.maximumIndexBytes)
  }

  lemma RelativeIsSafe(m: Member)
    requires ArchiveComponents(m.raw).Ok?
    ensures SafePath(RelativeOf(m).path) && ArchiveComponents(m.raw).value != []
  {
    var p := ArchiveComponents(m.raw).value;
    ArchiveComponentsExact(m.raw, p);
    forall i | 0 <= i < |p|
      ensures SafeComponent(p[i])
    {
      assert ProperComponent(p[i]);
      assert !CleanByte('\\');
    }
  }

  /** The first member that cannot be taken, and why: its own name or root, too much of something, or a clash with the
      members before it. */
  ghost predicate Refuses(listing: seq<Member>, a: nat, limits: Limits, e: ArchiveError)
  {
    && a < |listing| && Materializable(listing[..a], limits)
    && var entries := multiset(Relatives(listing[..a + 1]));
       match e
       case UnsafePath => !ValidMember(listing[a], limits) || RootOf(listing[a]) != RootOf(listing[0])
       case ResourceLimit =>
         || a + 1 > limits.maximumEntries || |listing[a].raw| > limits.maximumPathBytes
         || TotalLength(FoldedPrefixes(entries)) > limits.maximumIndexBytes
       case DuplicatePath => !TreeShaped(entries)
  }

  lemma OverloadRefuses(listing: seq<Member>, a: nat, limits: Limits, e: ArchiveError)
    requires a < |listing| && Materializable(listing[..a], limits)
    requires Overloads(AllItems(Relatives(listing[..a + 1])), limits.maximumIndexBytes, e)
    ensures Refuses(listing, a, limits, e)
  {
    hide Materializable, TotalLength, FoldedPrefixes, ClashFree, TreeShaped, Relatives, Keys, AllItems;
    var entries := Relatives(listing[..a + 1]);
    AllKeys(entries);
    if TreeShaped(multiset(entries)) { TreeIsClashFree(entries); }
  }

  lemma LimitRefuses(listing: seq<Member>, a: nat, limits: Limits)
    requires a < |listing| && Materializable(listing[..a], limits)
    requires a + 1 > limits.maximumEntries || |listing[a].raw| > limits.maximumPathBytes
    ensures Refuses(listing, a, limits, ResourceLimit)
  {
    hide Materializable, TotalLength, FoldedPrefixes, TreeShaped, Relatives;
  }

  lemma NameRefuses(listing: seq<Member>, a: nat, limits: Limits)
    requires a < |listing| && Materializable(listing[..a], limits)
    requires !ValidMember(listing[a], limits) || RootOf(listing[a]) != RootOf(listing[0])
    ensures Refuses(listing, a, limits, UnsafePath)
  {
    hide Materializable, TotalLength, FoldedPrefixes, TreeShaped, Relatives, ValidMember, RootOf;
  }

  /** What the checks of one member decide. */
  lemma MemberChecked(m: Member, limits: Limits)
    ensures var r := ArchiveComponents(m.raw);
            && (ValidMember(m, limits) <==>
                  && |m.raw| <= limits.maximumPathBytes && r.Ok?
                  && forall i :: 0 <= i < |r.value| ==> ValidWindowsComponent(r.value[i]))
            && (r.Ok? ==> && r.value != [] && RootOf(m) == r.value[0] && RelativeOf(m) == Entry(r.value[1..], m.isDirectory)
                          && SafePath(RelativeOf(m).path))
  {
    hide ArchiveComponents, ValidWindowsComponent, SafePath;
    if ArchiveComponents(m.raw).Ok? { RelativeIsSafe(m); }
  }

  lemma TakenSoFar(listing: seq<Member>, a: nat, limits: Limits)
    requires a <= |listing| && a <= limits.maximumEntries
    requires forall m :: m in listing[..a] ==> ValidMember(m, limits) && RootOf(m) == RootOf(listing[0])
    requires Acceptable(AllItems(Relatives(listing)[..a]), limits.maximumIndexBytes)
    ensures Materializable(listing[..a], limits) && Relatives(listing[..a]) == Relatives(listing)[..a]
  {
    hide Acceptable, Unambiguous, AllItems, ValidMember, RootOf, RelativeOf;
    assert Relatives(listing[..a]) == Relatives(listing)[..a];
    AcceptableIsUnambiguous(Relatives(listing[..a]), limits.maximumIndexBytes);
  }

  lemma RelativesOfPrefix(listing: seq<Member>, n: nat)
    requires n <= |listing|
    ensures Relatives(listing[..n]) == Relatives(listing)[..n]
  {
    hide RelativeOf;
  }

  /** The entry loop of `validate_windows_materialization_archive`. */
  method ValidateListing(listing: seq<Member>, limits: Limits) returns (r: Result<Index, ArchiveError>)
    ensures r.Ok? <==> Materializable(listing, limits)
    ensures r.Ok? ==> r.value.paths.Keys == FoldedPrefixes(multiset(Relatives(listing)))
    ensures r.Err? ==> exists a :: Refuses(listing, a, limits, r.error)
  {
    hide Acceptable, Represents, Unambiguous, AllItems, EntryItems, FoldedPrefixes, TotalLength, TreeShaped;
    hide ValidWindowsComponent, ArchiveComponents, SafePath, Overloads, Refuses, ValidMember, RootOf, RelativeOf, Relatives;
    ghost var entries := Relatives(listing);
    var maximum := limits.maximumIndexBytes;
    AcceptableIsUnambiguous(entries, maximum);
    var index := Index(map[], 0);
    var root := None;
    NothingRecorded(maximum);
    assert entries[..0] == [];
    for a := 0 to |listing|
      invariant a <= limits.maximumEntries && (root.None? <==> a == 0)
      invariant forall m :: m in listing[..a] ==> ValidMember(m, limits) && Some(RootOf(m)) == root
      invariant Represents(index, AllItems(entries[..a])) && Acceptable(AllItems(entries[..a]), maximum)
    {
      var member := listing[a];
      assert listing[..a + 1] == listing[..a] + [member] && member in listing;
      assert a > 0 ==> listing[0] in listing[..a];
      TakenSoFar(listing, a, limits);
      MemberChecked(member, limits);
      if a + 1 > limits.maximumEntries || |member.raw| > limits.maximumPathBytes {
        LimitRefuses(listing, a, limits);
        return Err(ResourceLimit);
      }
      var components := ArchiveComponents(member.raw);
      if components.Err? || exists i :: 0 <= i < |components.value| && !ValidWindowsComponent(components.value[i]) {
        NameRefuses(listing, a, limits);
        return Err(UnsafePath);
      }
      if root.Some? && root.value != components.value[0] {
        assert listing[0] in listing[..a] && RootOf(listing[0]) != RootOf(member);
        NameRefuses(listing, a, limits);
        return Err(UnsafePath);
      }
      root := Some(components.value[0]);
      AllItemsStep(entries, a);
      var next := RecordRelative(index, Entry(components.value[1..], member.isDirectory), maximum, a, AllItems(entries[..a]));
      if next.Err? {
        if Acceptable(AllItems(entries), maximum) {
          AcceptableSubset(AllItems(entries[..a + 1]), AllItems(entries), maximum);
        }
        assert Relatives(listing[..a + 1]) == entries[..a + 1] by { RelativesOfPrefix(listing, a + 1); }
        OverloadRefuses(listing, a, limits, next.error);
        return Err(next.error);
      }
      index := next.value;
    }
    assert listing[..|listing|] == listing && entries[..|listing|] == entries;
    RepresentedKeys(index, AllItems(entries));
    AllKeys(entries);
    r := Ok(index);
  }

  lemma RelativesConcat(xs: seq<Member>, ys: seq<Member>)
    ensures Relatives(xs + ys) == Relatives(xs) + Relatives(ys)
  {
  }

  /** Moving one member to the front permutes both the listing and its relative entries. */
  lemma MoveToFront(ys: seq<Member>, k: nat)
    requires k < |ys|
    ensures multiset(ys) == multiset([ys[k]]) + multiset(ys[..k] + ys[k + 1..])
    ensures multiset(Relatives(ys)) == multiset(Relatives([ys[k]])) + multiset(Relatives(ys[..k] + ys[k + 1..]))
  {
    hide RelativeOf;
    var a, x, b := ys[..k], [ys[k]], ys[k + 1..];
    assert ys == a + (x + b);
    RelativesConcat(a, x + b);
    RelativesConcat(x, b);
    RelativesConcat(a, b);
  }

  lemma {:induction false} RelativesOfPermutation(xs: seq<Member>, ys: seq<Member>)
    requires multiset(xs) == multiset(ys)
    ensures multiset(Relatives(xs)) == multiset(Relatives(ys))
    decreases |xs|
  {
    assert |xs| == |multiset(xs)| == |multiset(ys)| == |ys|;
    if xs == [] {
      assert ys == [];
    } else {
      PermutationStep(xs, ys);
    }
  }

  lemma {:induction false} PermutationStep(xs: seq<Member>, ys: seq<Member>)
    requires multiset(xs) == multiset(ys) && xs != []
    ensures multiset(Relatives(xs)) == multiset(Relatives(ys))
    decreases |xs|, 0
  {
    hide Relatives;
    assert xs[0] in multiset(ys);
    var k :| 0 <= k < |ys| && ys[k] == xs[0];
    var m, n := xs[..0] + xs[1..], ys[..k] + ys[k + 1..];
    MoveToFront(xs, 0);
    MoveToFront(ys, k);
    assert multiset(m) == multiset(xs) - multiset([xs[0]]);
    assert multiset(n) == multiset(ys) - multiset([xs[0]]);
    RelativesOfPermutation(m, n);
  }

  /** Acceptance does not depend on the order of the archive's members. */
  lemma OrderIndependent(xs: seq<Member>, ys: seq<Member>, limits: Limits)
    requires multiset(xs) == multiset(ys)
    ensures Materializable(xs, limits) <==> Materializable(ys, limits)
  {
    RelativesOfPermutation(xs, ys);
    assert |xs| == |multiset(xs)| == |multiset(ys)| == |ys|;
    assert forall m :: m in xs <==> m in multiset(xs);
    assert forall m :: m in ys <==> m in multiset(ys);
  }
}

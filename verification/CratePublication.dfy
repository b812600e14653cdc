/** The order in which workspace crates are published, and the retryable upload loop
    (`publication_order`, `wait_until_visible` and `execute_plan` in scripts/ci/publish-crates.py). */
module CratePublication {

  import opened Text
  import Utf8

  type Id = string

  datatype Publish = CratesIo | Nowhere | Elsewhere

  datatype Package = Package(name: string, publish: Publish)

  datatype DependencyKind = Normal | Build | Development

  datatype Dependency = Dependency(package: Id, kinds: seq<DependencyKind>)

  datatype Metadata = Metadata(workspace: set<Id>, packages: map<Id, Package>, nodes: map<Id, seq<Dependency>>)

  datatype OrderError = MissingPackage | BadPackage | MissingNode | PrivateDependency | DependencyCycle

  /** The publishable crates with what each needs published first. */
  datatype Graph = Graph(crates: set<Id>, needs: map<Id, set<Id>>, names: map<Id, string>)

  predicate Closed(g: Graph)
  {
    && g.needs.Keys == g.crates && g.crates <= g.names.Keys
    && forall c :: c in g.crates ==> g.needs[c] <= g.crates
  }

  // ----- Reading the workspace -----

  predicate Skipped(m: Metadata, d: Dependency)
  {
    d.package !in m.workspace || (d.kinds != [] && forall i :: 0 <= i < |d.kinds| ==> d.kinds[i] == Development)
  }

  function Publishable(m: Metadata): set<Id>
  {
    set c | c in m.workspace && c in m.packages && m.packages[c].publish == CratesIo
  }

  function Needed(m: Metadata, c: Id): set<Id>
  {
    if c in m.nodes then set d | d in m.nodes[c] && !Skipped(m, d) :: d.package else {}
  }

  /** The checks before ordering. `validName` is the crate-name pattern. */
  function Resolve(m: Metadata, validName: string -> bool): Result<Graph, OrderError>
  {
    if !(m.workspace <= m.packages.Keys) then Err(MissingPackage)
    else if exists c :: c in m.workspace && (!validName(m.packages[c].name) || m.packages[c].publish == Elsewhere) then Err(BadPackage)
    else if !(Publishable(m) <= m.nodes.Keys) then Err(MissingNode)
    else if exists c :: c in Publishable(m) && exists d :: d in Needed(m, c) && d !in Publishable(m) then Err(PrivateDependency)
    else Ok(Graph(Publishable(m), map c | c in Publishable(m) :: Needed(m, c), map c | c in m.workspace :: m.packages[c].name))
  }

  // ----- What the metadata itself asks for -----

  /** A workspace crate that publishes to crates.io. */
  predicate Wanted(m: Metadata, c: Id)
  {
    c in m.workspace && c in m.packages && m.packages[c].publish == CratesIo
  }

  /** A dependency on a workspace crate that is not for development only. */
  predicate Live(m: Metadata, d: Dependency)
  {
    d.package in m.workspace && (d.kinds == [] || exists j :: 0 <= j < |d.kinds| && d.kinds[j] != Development)
  }

  predicate DependsOn(m: Metadata, c: Id, d: Id)
  {
    c in m.nodes && exists k :: 0 <= k < |m.nodes[c]| && Live(m, m.nodes[c][k]) && m.nodes[c][k].package == d
  }

  predicate AllPackaged(m: Metadata)
  {
    forall c :: c in m.workspace ==> c in m.packages
  }

  predicate AllDeclared(m: Metadata, validName: string -> bool)
  {
    forall c :: c in m.workspace && c in m.packages ==> validName(m.packages[c].name) && m.packages[c].publish != Elsewhere
  }

  predicate AllResolved(m: Metadata)
  {
    forall c :: c in m.workspace && Wanted(m, c) ==> c in m.nodes
  }

  ghost predicate AllPublic(m: Metadata)
  {
    forall c, d :: Wanted(m, c) && DependsOn(m, c, d) ==> Wanted(m, d)
  }

  predicate WaitsFor(m: Metadata, c: Id, d: Id)
  {
    Wanted(m, c) && DependsOn(m, c, d)
  }

  /** Wanted crates that depend on one another in a ring. */
  predicate Ring(m: Metadata, p: seq<Id>)
  {
    && |p| >= 2 && p[0] == p[|p| - 1]
    && forall i :: 0 <= i < |p| - 1 ==> WaitsFor(m, p[i], p[i + 1])
  }

  ghost predicate HasRing(m: Metadata)
  {
    exists p :: Ring(m, p)
  }

  lemma NeededExactly(m: Metadata, c: Id, d: Id)
    ensures d in Needed(m, c) <==> DependsOn(m, c, d)
  {
    if DependsOn(m, c, d) {
      var k :| 0 <= k < |m.nodes[c]| && Live(m, m.nodes[c][k]) && m.nodes[c][k].package == d;
      assert m.nodes[c][k] in m.nodes[c] && !Skipped(m, m.nodes[c][k]);
    }
    if d in Needed(m, c) {
      var x :| x in m.nodes[c] && !Skipped(m, x) && x.package == d;
      var k :| 0 <= k < |m.nodes[c]| && m.nodes[c][k] == x;
      assert Live(m, m.nodes[c][k]);
    }
  }

  /** The checks fail for exactly the defects of the metadata, and otherwise give the graph of its dependencies. */
  lemma ResolveExactly(m: Metadata, validName: string -> bool)
    ensures var r := Resolve(m, validName);
            && (r == Err(MissingPackage) <==> !AllPackaged(m))
            && (r == Err(BadPackage) <==> AllPackaged(m) && !AllDeclared(m, validName))
            && (r == Err(MissingNode) <==> AllPackaged(m) && AllDeclared(m, validName) && !AllResolved(m))
            && (r == Err(PrivateDependency) <==> AllPackaged(m) && AllDeclared(m, validName) && AllResolved(m) && !AllPublic(m))
            && (r.Ok? <==> AllPackaged(m) && AllDeclared(m, validName) && AllResolved(m) && AllPublic(m))
            && r != Err(DependencyCycle)
            && (r.Ok? ==> GraphOf(r.value, m))
  {
    hide Needed, DependsOn;
    forall c, d
      ensures d in Needed(m, c) <==> DependsOn(m, c, d)
    {
      NeededExactly(m, c, d);
    }
    assert forall c :: c in Publishable(m) <==> Wanted(m, c);
  }

  /** The graph is that of the metadata. */
  ghost predicate GraphOf(g: Graph, m: Metadata)
  {
    && (forall c :: c in g.crates <==> Wanted(m, c))
    && (forall c, d :: Wanted(m, c) ==> (Needs(g, c, d) <==> DependsOn(m, c, d)))
    && (forall c :: Wanted(m, c) ==> c in g.names && g.names[c] == m.packages[c].name)
  }

  lemma RingIsCycle(m: Metadata, g: Graph, p: seq<Id>)
    requires GraphOf(g, m) && Closed(g)
    ensures Ring(m, p) <==> IsCycle(p, g)
  {
    hide Wanted, DependsOn;
    forall c, d
      ensures Needs(g, c, d) <==> WaitsFor(m, c, d)
    {
      assert Needs(g, c, d) ==> c in g.crates;
    }
    hide WaitsFor, Needs;
  }

  lemma ResolveIsClosed(m: Metadata, validName: string -> bool)
    requires Resolve(m, validName).Ok?
    ensures Closed(Resolve(m, validName).value)
  {
  }

  // ----- Orders and cycles -----

  /** The members of a set, each once. */
  predicate Listing(ids: seq<Id>, s: set<Id>)
  {
    NoRepeats(ids) && (forall i :: 0 <= i < |ids| ==> ids[i] in s) && forall c :: c in s ==> c in ids
  }

  /** Everything a crate needs stands before it. */
  predicate NeedsFirst(order: seq<Id>, g: Graph)
  {
    forall i :: 0 <= i < |order| ==> order[i] in g.needs && forall d :: d in g.needs[order[i]] ==> d in order[..i]
  }

  predicate NameLeq(g: Graph, a: Id, b: Id)
  {
    a in g.names && b in g.names && LexLeq(Utf8.Scalars(g.names[a]), Utf8.Scalars(g.names[b]))
  }

  predicate SortedNames(ids: seq<Id>, g: Graph)
  {
    forall i, j :: 0 <= i < j < |ids| ==> NameLeq(g, ids[i], ids[j])
  }

  /** A way to come back to where it started by following needs. */
  predicate IsCycle(p: seq<Id>, g: Graph)
  {
    && |p| >= 2 && p[0] == p[|p| - 1]
    && forall i :: 0 <= i < |p| - 1 ==> Needs(g, p[i], p[i + 1])
  }

  predicate Needs(g: Graph, a: Id, b: Id)
  {
    a in g.needs && b in g.needs[a]
  }

  ghost predicate HasCycle(g: Graph)
  {
    exists p :: IsCycle(p, g)
  }

  function Layer(g: Graph, remaining: set<Id>): set<Id>
  {
    set c | c in remaining && c in g.needs && g.needs[c] * remaining == {}
  }

  /** What is left after `k` rounds. */
  function Remaining(g: Graph, k: nat): set<Id>
  {
    if k == 0 then g.crates else Remaining(g, k - 1) - Layer(g, Remaining(g, k - 1))
  }

  function Concat(layers: seq<seq<Id>>): seq<Id>
  {
    if layers == [] then [] else Concat(layers[..|layers| - 1]) + layers[|layers| - 1]
  }

  /** Round by round, the crates whose needs are all published, sorted by name. */
  ghost predicate Layered(layers: seq<seq<Id>>, g: Graph)
  {
    forall k :: 0 <= k < |layers| ==> SortedLayer(layers[k], g, k)
  }

  ghost predicate SortedLayer(layer: seq<Id>, g: Graph, k: nat)
  {
    Listing(layer, Layer(g, Remaining(g, k))) && SortedNames(layer, g)
  }

  // ----- Rounds by the length of dependency chains -----

  /** Each crate ranks just above the highest of its needs. */
  ghost predicate Ranks(rank: map<Id, nat>, g: Graph)
  {
    && (forall c, d :: c in rank && Needs(g, c, d) ==> d in rank && rank[d] < rank[c])
    && (forall c :: c in rank && rank[c] > 0 ==> HasNeedAt(rank, g, c, rank[c] - 1))
  }

  ghost predicate HasNeedAt(rank: map<Id, nat>, g: Graph, c: Id, k: nat)
  {
    exists d :: Needs(g, c, d) && d in rank && rank[d] == k
  }

  /** By rank, and by name within a rank. */
  ghost predicate SortedByRank(order: seq<Id>, rank: map<Id, nat>, g: Graph)
  {
    && (forall i :: 0 <= i < |order| ==> order[i] in rank)
    && (forall i, j :: 0 <= i < j < |order| ==>
          rank[order[i]] < rank[order[j]] || (rank[order[i]] == rank[order[j]] && NameLeq(g, order[i], order[j])))
  }

  ghost predicate Ranked(order: seq<Id>, g: Graph)
  {
    exists rank :: Ranks(rank, g) && SortedByRank(order, rank, g)
  }

  /** What the ranks of the first `k` rounds say about the crates still waiting. */
  ghost predicate RankedSoFar(rank: map<Id, nat>, ordered: seq<Id>, remaining: set<Id>, k: nat, g: Graph)
  {
    && (forall c :: c in rank <==> c in g.crates && c !in remaining)
    && (forall c :: c in rank ==> rank[c] < k)
    && Ranks(rank, g) && SortedByRank(ordered, rank, g)
    && (k > 0 ==> forall c :: c in remaining ==> StillWaits(rank, remaining, g, c, k - 1))
  }

  /** Some need is still waiting or came in the last round. */
  ghost predicate StillWaits(rank: map<Id, nat>, remaining: set<Id>, g: Graph, c: Id, last: nat)
  {
    exists d :: Needs(g, c, d) && (d in remaining || (d in rank && rank[d] == last))
  }

  function WithRank(rank: map<Id, nat>, layer: set<Id>, k: nat): map<Id, nat>
  {
    rank + map c | c in layer :: k
  }

  lemma RanksGrow(rank: map<Id, nat>, ordered: seq<Id>, remaining: set<Id>, k: nat, g: Graph)
    requires Closed(g) && remaining <= g.crates && RankedSoFar(rank, ordered, remaining, k, g)
    ensures Ranks(WithRank(rank, Layer(g, remaining), k), g)
  {
    hide SortedByRank;
    var layer := Layer(g, remaining);
    var next := WithRank(rank, layer, k);
    forall c, d | c in next && Needs(g, c, d)
      ensures d in next && next[d] < next[c]
    {
      if c in layer { assert d !in g.needs[c] * remaining; }
    }
    forall c | c in next && next[c] > 0
      ensures HasNeedAt(next, g, c, next[c] - 1)
    {
      if c in layer {
        assert StillWaits(rank, remaining, g, c, k - 1);
        var d :| Needs(g, c, d) && (d in remaining || (d in rank && rank[d] == k - 1));
        assert d !in g.needs[c] * remaining;
        assert next[d] == k - 1;
      } else {
        assert HasNeedAt(rank, g, c, rank[c] - 1);
        var d :| Needs(g, c, d) && d in rank && rank[d] == rank[c] - 1;
        assert next[d] == rank[d];
      }
    }
  }

  lemma WaitingGoesOn(rank: map<Id, nat>, remaining: set<Id>, k: nat, g: Graph, c: Id)
    requires Closed(g) && remaining <= g.crates && c in remaining && c !in Layer(g, remaining)
    ensures StillWaits(WithRank(rank, Layer(g, remaining), k), remaining - Layer(g, remaining), g, c, k)
  {
    assert g.needs[c] * remaining != {};
    var d :| d in g.needs[c] * remaining;
    assert Needs(g, c, d);
    assert d in Layer(g, remaining) ==> WithRank(rank, Layer(g, remaining), k)[d] == k;
  }

  lemma SortedGrowsByRank(rank: map<Id, nat>, ordered: seq<Id>, ready: seq<Id>, layer: set<Id>, k: nat, g: Graph)
    requires SortedByRank(ordered, rank, g) && Listing(ready, layer) && SortedNames(ready, g)
    requires (forall c :: c in rank ==> rank[c] < k && c !in layer)
    ensures SortedByRank(ordered + ready, WithRank(rank, layer, k), g)
  {
    hide NameLeq;
    var all, next := ordered + ready, WithRank(rank, layer, k);
    assert forall i :: 0 <= i < |ordered| ==> all[i] == ordered[i] && next[all[i]] == rank[ordered[i]] < k;
    assert forall i :: |ordered| <= i < |all| ==> all[i] == ready[i - |ordered|] && next[all[i]] == k;
  }

  lemma RankedStep(rank: map<Id, nat>, ordered: seq<Id>, remaining: set<Id>, k: nat, g: Graph, ready: seq<Id>)
    requires Closed(g) && remaining <= g.crates && RankedSoFar(rank, ordered, remaining, k, g)
    requires Listing(ready, Layer(g, remaining)) && SortedNames(ready, g)
    ensures RankedSoFar(WithRank(rank, Layer(g, remaining), k), ordered + ready, remaining - Layer(g, remaining), k + 1, g)
  {
    hide Ranks, SortedByRank, StillWaits, Listing, SortedNames;
    var layer := Layer(g, remaining);
    RanksGrow(rank, ordered, remaining, k, g);
    SortedGrowsByRank(rank, ordered, ready, layer, k, g);
    forall c | c in remaining - layer
      ensures StillWaits(WithRank(rank, layer, k), remaining - layer, g, c, k)
    {
      WaitingGoesOn(rank, remaining, k, g, c);
    }
  }

  lemma RankedEnds(rank: map<Id, nat>, ordered: seq<Id>, k: nat, g: Graph)
    requires RankedSoFar(rank, ordered, {}, k, g)
    ensures Ranked(ordered, g)
  {
  }

  lemma RankedStarts(g: Graph)
    ensures RankedSoFar(map[], [], g.crates, 0, g)
  {
  }

  lemma {:induction false} Pigeonhole(p: seq<Id>, s: set<Id>)
    requires NoRepeats(p) && forall i :: 0 <= i < |p| ==> p[i] in s
    ensures |p| <= |s|
    decreases |p|
  {
    if p != [] {
      var n := |p| - 1;
      assert forall i :: 0 <= i < n ==> p[i] != p[n];
      Pigeonhole(p[..n], s - {p[n]});
    }
  }

  /** Following needs inside a stuck set, `n` times. */
  ghost function Walk(g: Graph, stuck: set<Id>, c: Id, n: nat): (p: seq<Id>)
    requires c in stuck && stuck <= g.needs.Keys && forall x :: x in stuck ==> g.needs[x] * stuck != {}
    ensures |p| == n + 1 && p[0] == c
    ensures forall i :: 0 <= i < |p| ==> p[i] in stuck
    ensures forall i :: 0 <= i < n ==> Needs(g, p[i], p[i + 1])
    decreases n
  {
    if n == 0 then [c] else
      var d :| d in g.needs[c] * stuck;
      [c] + Walk(g, stuck, d, n - 1)
  }

  lemma RepeatIsCycle(g: Graph, p: seq<Id>, i: nat, j: nat)
    requires i < j < |p| && p[i] == p[j] && forall k :: 0 <= k < |p| - 1 ==> Needs(g, p[k], p[k + 1])
    ensures HasCycle(g)
  {
    hide Needs;
    var q := p[i..j + 1];
    forall k | 0 <= k < |q| - 1
      ensures Needs(g, q[k], q[k + 1])
    {
      assert Needs(g, p[i + k], p[i + k + 1]);
    }
    assert IsCycle(q, g);
  }

  /** A set of crates that all wait for one another contains a cycle. */
  lemma StuckIsCyclic(g: Graph, stuck: set<Id>)
    requires stuck != {} && stuck <= g.needs.Keys && Layer(g, stuck) == {}
    ensures HasCycle(g)
  {
    hide HasCycle, Needs, Walk;
    forall x | x in stuck
      ensures g.needs[x] * stuck != {}
    {
      assert x !in Layer(g, stuck);
    }
    var c :| c in stuck;
    var p := Walk(g, stuck, c, |stuck|);
    if NoRepeats(p) {
      Pigeonhole(p, stuck);
      assert false;
    }
    var i, j :| 0 <= i < j < |p| && p[i] == p[j];
    RepeatIsCycle(g, p, i, j);
  }

  function Place(order: seq<Id>, c: Id): (k: nat)
    ensures k <= |order|
    ensures c in order ==> k < |order| && order[k] == c
    ensures forall i :: 0 <= i < k ==> order[i] != c
  {
    if order == [] || order[0] == c then 0 else 1 + Place(order[1..], c)
  }

  lemma {:induction false} CycleGoesBack(order: seq<Id>, g: Graph, p: seq<Id>, k: nat)
    requires Closed(g) && Listing(order, g.crates) && NeedsFirst(order, g)
    requires k < |p| && forall i :: 0 <= i < |p| - 1 ==> Needs(g, p[i], p[i + 1])
    requires p[0] in g.crates
    ensures p[k] in g.crates && Place(order, p[k]) + k <= Place(order, p[0])
  {
    if k > 0 {
      CycleGoesBack(order, g, p, k - 1);
      assert Needs(g, p[k - 1], p[k]);
      var i := Place(order, p[k - 1]);
      assert order[i] == p[k - 1] && p[k] in order[..i];
      var j :| 0 <= j < i && order[..i][j] == p[k];
      assert order[j] == p[k];
    }
  }

  /** A complete order with needs first leaves no cycle. */
  lemma OrderedIsAcyclic(order: seq<Id>, g: Graph)
    requires Closed(g) && Listing(order, g.crates) && NeedsFirst(order, g)
    ensures !HasCycle(g)
  {
    forall p
      ensures !IsCycle(p, g)
    {
      if IsCycle(p, g) {
        assert Needs(g, p[0], p[1]);
        CycleGoesBack(order, g, p, |p| - 1);
        assert false;
      }
    }
  }

  // ----- The ordering loop -----

  lemma NameOrder(g: Graph, a: Id, b: Id, c: Id)
    requires a in g.names && b in g.names && c in g.names
    ensures NameLeq(g, a, b) || NameLeq(g, b, a)
    ensures NameLeq(g, a, b) && NameLeq(g, b, c) ==> NameLeq(g, a, c)
  {
    LexTotal(Utf8.Scalars(g.names[a]), Utf8.Scalars(g.names[b]));
    if NameLeq(g, a, b) && NameLeq(g, b, c) {
      LexTransitive(Utf8.Scalars(g.names[a]), Utf8.Scalars(g.names[b]), Utf8.Scalars(g.names[c]));
    }
  }

  method FirstByName(ids: set<Id>, g: Graph) returns (first: Id)
    requires ids != {} && ids <= g.names.Keys
    ensures first in ids && forall c :: c in ids ==> NameLeq(g, first, c)
  {
    hide NameLeq;
    first :| first in ids;
    var rest := ids - {first};
    NameOrder(g, first, first, first);
    while rest != {}
      invariant rest <= ids && first in ids
      invariant forall c :: c in ids && c !in rest ==> NameLeq(g, first, c)
      decreases |rest|
    {
      var c :| c in rest;
      NameOrder(g, first, c, c);
      NameOrder(g, c, c, c);
      if !NameLeq(g, first, c) {
        forall x | x in ids && x !in rest
          ensures NameLeq(g, c, x)
        {
          NameOrder(g, c, first, x);
        }
        first := c;
      }
      rest := rest - {c};
    }
  }

  method SortByName(ids: set<Id>, g: Graph) returns (sorted: seq<Id>)
    requires ids <= g.names.Keys
    ensures Listing(sorted, ids) && SortedNames(sorted, g)
  {
    hide NameLeq, Listing, SortedNames;
    sorted := [];
    var rest := ids;
    assert ids - ids == {};
    NothingSorted(g);
    while rest != {}
      invariant rest <= ids && Listing(sorted, ids - rest) && SortedNames(sorted, g)
      invariant forall i, c :: 0 <= i < |sorted| && c in rest ==> NameLeq(g, sorted[i], c)
      decreases |rest|
    {
      var first := FirstByName(rest, g);
      ListingGrows(sorted, ids - rest, first);
      SortedGrows(sorted, first, g);
      sorted := sorted + [first];
      assert ids - rest + {first} == ids - (rest - {first});
      rest := rest - {first};
    }
    assert ids - {} == ids;
  }

  lemma NothingSorted(g: Graph)
    ensures Listing([], {}) && SortedNames([], g)
  {
  }

  lemma SortedGrows(sorted: seq<Id>, c: Id, g: Graph)
    requires SortedNames(sorted, g) && forall i :: 0 <= i < |sorted| ==> NameLeq(g, sorted[i], c)
    ensures SortedNames(sorted + [c], g)
  {
  }

  lemma ListingGrows(ids: seq<Id>, s: set<Id>, c: Id)
    requires Listing(ids, s) && c !in s
    ensures Listing(ids + [c], s + {c})
  {
    assert forall i :: 0 <= i < |ids| ==> (ids + [c])[i] == ids[i];
    assert c in ids + [c];
  }

  /** One round keeps the order complete so far, with needs first. */
  lemma RoundIsSound(ordered: seq<Id>, ready: seq<Id>, g: Graph, remaining: set<Id>)
    requires Closed(g) && remaining <= g.crates
    requires Listing(ordered, g.crates - remaining) && NeedsFirst(ordered, g) && Listing(ready, Layer(g, remaining))
    ensures Listing(ordered + ready, g.crates - (remaining - Layer(g, remaining))) && NeedsFirst(ordered + ready, g)
  {
    var layer, all := Layer(g, remaining), ordered + ready;
    assert forall i :: 0 <= i < |ordered| ==> all[i] == ordered[i];
    assert forall i :: |ordered| <= i < |all| ==> all[i] == ready[i - |ordered|];
    assert NoRepeats(all);
    assert g.crates - (remaining - layer) == (g.crates - remaining) + layer;
    forall i | 0 <= i < |all|
      ensures all[i] in g.needs && forall d :: d in g.needs[all[i]] ==> d in all[..i]
    {
      if i < |ordered| {
        assert all[..i] == ordered[..i];
      } else {
        forall d | d in g.needs[all[i]]
          ensures d in all[..i]
        {
          assert d !in remaining by { assert d !in g.needs[all[i]] * remaining; }
          assert d in ordered;
          assert all[..i] == ordered + ready[..i - |ordered|];
        }
      }
    }
  }

  /** What the ordering loop answers for a graph. */
  ghost predicate OrderAnswers(r: Result<seq<Id>, OrderError>, g: Graph)
  {
    match r
    case Err(e) => e == DependencyCycle && HasCycle(g)
    case Ok(order) =>
      && !HasCycle(g) && Listing(order, g.crates) && NeedsFirst(order, g) && Ranked(order, g)
      && exists layers :: Layered(layers, g) && order == Concat(layers)
  }

  /** The state of the loop after some rounds. */
  ghost predicate Progress(ordered: seq<Id>, remaining: set<Id>, layers: seq<seq<Id>>, g: Graph)
  {
    && remaining <= g.crates && remaining == Remaining(g, |layers|)
    && Listing(ordered, g.crates - remaining) && NeedsFirst(ordered, g)
    && Layered(layers, g) && ordered == Concat(layers)
  }

  lemma ProgressStarts(g: Graph)
    ensures Progress([], g.crates, [], g)
  {
  }

  lemma ProgressStep(ordered: seq<Id>, remaining: set<Id>, layers: seq<seq<Id>>, g: Graph, ready: seq<Id>)
    requires Closed(g) && Progress(ordered, remaining, layers, g)
    requires Listing(ready, Layer(g, remaining)) && SortedNames(ready, g)
    ensures Progress(ordered + ready, remaining - Layer(g, remaining), layers + [ready], g)
  {
    hide Listing, NeedsFirst, SortedNames, Layered, Layer;
    RoundIsSound(ordered, ready, g, remaining);
    LayersGrow(layers, ready, g);
  }

  lemma ProgressEnds(ordered: seq<Id>, layers: seq<seq<Id>>, g: Graph)
    requires Closed(g) && Progress(ordered, {}, layers, g) && Ranked(ordered, g)
    ensures OrderAnswers(Ok(ordered), g)
  {
    hide Ranked, Listing, NeedsFirst, Layered, HasCycle;
    assert g.crates - {} == g.crates;
    OrderedIsAcyclic(ordered, g);
  }

  lemma LayerIsWithin(g: Graph, remaining: set<Id>)
    requires Closed(g) && remaining <= g.crates
    ensures Layer(g, remaining) <= remaining && remaining <= g.names.Keys && remaining <= g.needs.Keys
  {
  }

  lemma CycleAnswers(g: Graph)
    requires HasCycle(g)
    ensures OrderAnswers(Err(DependencyCycle), g)
  {
  }

  method OrderGraph(g: Graph) returns (r: Result<seq<Id>, OrderError>)
    requires Closed(g)
    ensures OrderAnswers(r, g)
  {
    hide Progress, RankedSoFar, Listing, SortedNames, HasCycle, OrderAnswers, Layer, WithRank, Closed;
    var ordered: seq<Id>, remaining := [], g.crates;
    ghost var layers: seq<seq<Id>>, rank: map<Id, nat> := [], map[];
    ProgressStarts(g);
    RankedStarts(g);
    while remaining != {}
      invariant remaining <= g.crates && Progress(ordered, remaining, layers, g)
      invariant RankedSoFar(rank, ordered, remaining, |layers|, g)
      decreases |remaining|
    {
      var layer := Layer(g, remaining);
      LayerIsWithin(g, remaining);
      var ready := SortByName(layer, g);
      if ready == [] {
        EmptyListing(layer);
        StuckIsCyclic(g, remaining);
        CycleAnswers(g);
        return Err(DependencyCycle);
      }
      SomeListed(ready, layer);
      ProgressStep(ordered, remaining, layers, g, ready);
      RankedStep(rank, ordered, remaining, |layers|, g, ready);
      rank := WithRank(rank, layer, |layers|);
      layers := layers + [ready];
      ordered := ordered + ready;
      remaining := remaining - layer;
    }
    RankedEnds(rank, ordered, |layers|, g);
    ProgressEnds(ordered, layers, g);
    r := Ok(ordered);
  }

  /** An order of the metadata's own crates: the wanted ones, each once, after every live dependency. */
  ghost predicate OrdersWorkspace(order: seq<Id>, m: Metadata)
  {
    && NoRepeats(order) && (forall c :: c in order <==> Wanted(m, c))
    && (forall i :: 0 <= i < |order| ==> DependenciesBefore(order, m, i))
  }

  ghost predicate DependenciesBefore(order: seq<Id>, m: Metadata, i: nat)
    requires i < |order|
  {
    forall d :: DependsOn(m, order[i], d) ==> d in order[..i]
  }

  predicate NamedBefore(m: Metadata, a: Id, b: Id)
  {
    && a in m.packages && b in m.packages
    && LexLeq(Utf8.Scalars(m.packages[a].name), Utf8.Scalars(m.packages[b].name))
  }

  /** Ranks of the metadata: each wanted crate just above the highest of its dependencies. */
  ghost predicate WorkspaceRanks(rank: map<Id, nat>, m: Metadata)
  {
    && (forall c, d :: c in rank && WaitsFor(m, c, d) ==> d in rank && rank[d] < rank[c])
    && (forall c :: c in rank && rank[c] > 0 ==> exists d :: WaitsFor(m, c, d) && d in rank && rank[d] == rank[c] - 1)
  }

  /** Crates come by the length of their dependency chains, and by name where those are equal. */
  ghost predicate OrderedByChains(order: seq<Id>, m: Metadata)
  {
    exists rank :: WorkspaceRanks(rank, m) && SortedByChains(order, rank, m)
  }

  ghost predicate SortedByChains(order: seq<Id>, rank: map<Id, nat>, m: Metadata)
  {
    && (forall i :: 0 <= i < |order| ==> order[i] in rank)
    && (forall i, j :: 0 <= i < j < |order| ==>
          rank[order[i]] < rank[order[j]] || (rank[order[i]] == rank[order[j]] && NamedBefore(m, order[i], order[j])))
  }

  lemma OrderOfGraphIsOfWorkspace(order: seq<Id>, g: Graph, m: Metadata)
    requires GraphOf(g, m) && Closed(g) && Listing(order, g.crates) && NeedsFirst(order, g)
    ensures OrdersWorkspace(order, m)
  {
    hide Wanted, DependsOn;
    forall i | 0 <= i < |order|
      ensures DependenciesBefore(order, m, i)
    {
      assert Wanted(m, order[i]);
      assert forall d :: DependsOn(m, order[i], d) ==> Needs(g, order[i], d);
    }
    forall c
      ensures c in order <==> Wanted(m, c)
    {
      assert c in order ==> exists i :: 0 <= i < |order| && order[i] == c;
    }
  }

  lemma RankedIsByChains(order: seq<Id>, g: Graph, m: Metadata)
    requires GraphOf(g, m) && Closed(g) && Listing(order, g.crates) && Ranked(order, g)
    ensures OrderedByChains(order, m)
  {
    hide Wanted, DependsOn;
    var rank :| Ranks(rank, g) && SortedByRank(order, rank, g);
    forall c, d
      ensures Needs(g, c, d) <==> WaitsFor(m, c, d)
    {
      assert Needs(g, c, d) ==> c in g.crates;
    }
    forall c | c in rank && rank[c] > 0
      ensures exists d :: WaitsFor(m, c, d) && d in rank && rank[d] == rank[c] - 1
    {
      assert HasNeedAt(rank, g, c, rank[c] - 1);
    }
    assert WorkspaceRanks(rank, m);
    forall i, j | 0 <= i < j < |order|
      ensures rank[order[i]] < rank[order[j]] || (rank[order[i]] == rank[order[j]] && NamedBefore(m, order[i], order[j]))
    {
      NamesOfWorkspace(g, m, order[i], order[j]);
    }
  }

  lemma NamesOfWorkspace(g: Graph, m: Metadata, a: Id, b: Id)
    requires GraphOf(g, m) && a in g.crates && b in g.crates
    ensures NameLeq(g, a, b) <==> NamedBefore(m, a, b)
  {
    assert Wanted(m, a) && Wanted(m, b);
  }

  /** `publication_order`, on the metadata itself: exactly the wanted crates, each once and after every live dependency,
      by chain length and then by name; and each error for exactly its defect. */
  method PublicationOrder(m: Metadata, validName: string -> bool) returns (r: Result<seq<Id>, OrderError>)
    ensures r == Err(MissingPackage) <==> !AllPackaged(m)
    ensures r == Err(BadPackage) <==> AllPackaged(m) && !AllDeclared(m, validName)
    ensures r == Err(MissingNode) <==> AllPackaged(m) && AllDeclared(m, validName) && !AllResolved(m)
    ensures r == Err(PrivateDependency) <==> AllPackaged(m) && AllDeclared(m, validName) && AllResolved(m) && !AllPublic(m)
    ensures r == Err(DependencyCycle) <==>
              AllPackaged(m) && AllDeclared(m, validName) && AllResolved(m) && AllPublic(m) && HasRing(m)
    ensures r.Ok? ==> OrdersWorkspace(r.value, m) && OrderedByChains(r.value, m)
  {
    hide OrderAnswers, Resolve, AllPackaged, AllDeclared, AllResolved, AllPublic, HasRing, OrdersWorkspace, OrderedByChains;
    ResolveExactly(m, validName);
    var resolved := Resolve(m, validName);
    if resolved.Err? {
      return Err(resolved.error);
    }
    ResolveIsClosed(m, validName);
    r := OrderGraph(resolved.value);
    AnswersForWorkspace(r, resolved.value, m);
  }

  lemma AnswersForWorkspace(r: Result<seq<Id>, OrderError>, g: Graph, m: Metadata)
    requires GraphOf(g, m) && Closed(g) && OrderAnswers(r, g)
    ensures r.Err? <==> HasRing(m)
    ensures r.Err? ==> r.error == DependencyCycle
    ensures r.Ok? ==> OrdersWorkspace(r.value, m) && OrderedByChains(r.value, m)
  {
    hide GraphOf, Closed, Listing, NeedsFirst, Ranked, OrdersWorkspace, OrderedByChains, Ring, IsCycle, Layered;
    forall p
      ensures Ring(m, p) <==> IsCycle(p, g)
    {
      RingIsCycle(m, g, p);
    }
    if r.Ok? {
      OrderOfGraphIsOfWorkspace(r.value, g, m);
      RankedIsByChains(r.value, g, m);
    }
  }

  lemma EmptyListing(s: set<Id>)
    requires Listing([], s)
    ensures s == {}
  {
    assert forall c :: c in s ==> c in [];
  }

  lemma SomeListed(ids: seq<Id>, s: set<Id>)
    requires Listing(ids, s) && ids != []
    ensures s != {}
  {
    assert ids[0] in s;
  }

  lemma LayersGrow(layers: seq<seq<Id>>, ready: seq<Id>, g: Graph)
    requires Layered(layers, g) && Listing(ready, Layer(g, Remaining(g, |layers|))) && SortedNames(ready, g)
    ensures Layered(layers + [ready], g) && Concat(layers + [ready]) == Concat(layers) + ready
  {
    hide Listing, SortedNames, Remaining, Layer;
    var all := layers + [ready];
    assert all[..|layers|] == layers;
    assert forall k :: 0 <= k < |layers| ==> all[k] == layers[k];
    assert SortedLayer(all[|layers|], g, |layers|);
  }

  // ----- Uploading -----

  type Checksum = string

  datatype Release = Release(name: string, version: string)

  datatype PlanEntry = PlanEntry(release: Release, sha256: Checksum)

  /** Everything the script observes, by the number of the observation: what the registry has published, whether a
      query fails, which names exist, whether owners are as expected, the clock in seconds, and the first observation
      after a sleep. */
  datatype World = World(
    published: nat -> map<Release, Checksum>, fault: nat -> bool, names: nat -> set<string>, owned: nat -> bool,
    clock: nat -> int, wake: (nat, nat) -> nat)

  /** The clock never goes back, and a sleep lasts at least as long as asked. */
  ghost predicate Steady(w: World)
  {
    && (forall t: nat :: w.clock(t) <= w.clock(t + 1))
    && (forall t: nat, d: nat :: t <= w.wake(t, d) && w.clock(t) + d <= w.clock(w.wake(t, d)))
  }

  lemma {:induction false} ClockAdvances(w: World, t: nat, u: nat)
    requires Steady(w) && t <= u
    ensures w.clock(t) <= w.clock(u)
    decreases u - t
  {
    if t < u { ClockAdvances(w, t + 1, u); }
  }

  /** Registries only gain releases, and a release never changes. */
  ghost predicate Immutable(w: World)
  {
    forall t: nat, r :: r in w.published(t) ==> r in w.published(t + 1) && w.published(t + 1)[r] == w.published(t)[r]
  }

  predicate Visible(w: World, t: nat, e: PlanEntry)
  {
    e.release in w.published(t) && w.published(t)[e.release] == e.sha256
  }

  lemma {:induction false} StaysPublished(w: World, t: nat, u: nat, r: Release)
    requires Immutable(w) && t <= u && r in w.published(t)
    ensures r in w.published(u) && w.published(u)[r] == w.published(t)[r]
    decreases u - t
  {
    if t < u { StaysPublished(w, t + 1, u, r); }
  }

  function PublishedChecksum(w: World, t: nat, r: Release): Result<Option<Checksum>, ()>
  {
    if w.fault(t) then Err(()) else if r in w.published(t) then Ok(Some(w.published(t)[r])) else Ok(None)
  }

  const VISIBILITY_TIMEOUT_SECONDS: nat := 180
  const POLL_INTERVAL_SECONDS: nat := 3

  /** The observation that starts the `k`th round of waiting: the clock is read there, the registry right after. */
  function RoundAt(w: World, start: nat, k: nat): nat
  {
    if k == 0 then start + 1 else w.wake(RoundAt(w, start, k - 1) + 2, POLL_INTERVAL_SECONDS)
  }

  /** The `k`th round is in time, and the registry answers it so. */
  predicate Sees(w: World, start: nat, e: PlanEntry, k: nat, answer: Option<Checksum>)
  {
    && w.clock(RoundAt(w, start, k)) < w.clock(start) + VISIBILITY_TIMEOUT_SECONDS
    && PublishedChecksum(w, RoundAt(w, start, k) + 1, e.release) == Ok(answer)
  }

  /** The `k`th round is the first to see the release, in time and with the expected checksum. */
  predicate FirstSeen(w: World, start: nat, e: PlanEntry, k: nat)
  {
    Sees(w, start, e, k, Some(e.sha256)) && forall j :: 0 <= j < k ==> Sees(w, start, e, j, None)
  }

  lemma NeverSeen(w: World, start: nat, e: PlanEntry, i: nat)
    requires forall j :: 0 <= j < i ==> Sees(w, start, e, j, None)
    requires !Sees(w, start, e, i, None) && !Sees(w, start, e, i, Some(e.sha256))
    ensures forall k: nat :: !FirstSeen(w, start, e, k)
  {
    forall k: nat
      ensures !FirstSeen(w, start, e, k)
    {
      if k < i { assert Sees(w, start, e, k, None); }
    }
  }

  /** Rounds go forward in time, so waiting ends. */
  lemma NextRound(w: World, start: nat, k: nat)
    requires Steady(w)
    ensures RoundAt(w, start, 0) == start + 1
    ensures RoundAt(w, start, k + 1) == w.wake(RoundAt(w, start, k) + 2, POLL_INTERVAL_SECONDS) > RoundAt(w, start, k)
    ensures w.clock(RoundAt(w, start, k + 1)) > w.clock(RoundAt(w, start, k))
  {
    var t := RoundAt(w, start, k);
    ClockAdvances(w, t, t + 2);
  }

  /** `wait_until_visible`. */
  method WaitUntilVisible(w: World, start: nat, e: PlanEntry) returns (ok: bool, now: nat)
    requires Steady(w)
    ensures start <= now && (ok ==> start < now && Visible(w, now - 1, e))
    ensures ok <==> exists k: nat :: FirstSeen(w, start, e, k)
    ensures VisibleAtOnce(w, start, e) ==> ok && now == start + 3
  {
    hide VisibleAtOnce, Visible, Steady, RoundAt, PublishedChecksum, FirstSeen;
    var deadline := w.clock(start) + VISIBILITY_TIMEOUT_SECONDS;
    now := start + 1;
    ghost var i: nat := 0;
    NextRound(w, start, i);
    SeenAtOnce(w, start, e);
    while w.clock(now) < deadline
      invariant start < now == RoundAt(w, start, i)
      invariant forall j :: 0 <= j < i ==> Sees(w, start, e, j, None)
      decreases deadline - w.clock(now)
    {
      var actual := PublishedChecksum(w, now + 1, e.release);
      if actual.Err? || (actual.value.Some? && actual.value.value != e.sha256) {
        NeverSeen(w, start, e, i);
        return false, now + 2;
      }
      if actual.value.Some? {
        SeenNow(w, start, e, i);
        return true, now + 2;
      }
      NextRound(w, start, i);
      now := w.wake(now + 2, POLL_INTERVAL_SECONDS);
      i := i + 1;
    }
    NeverSeen(w, start, e, i);
    ok := false;
  }

  /** The release is there at the first look. */
  predicate VisibleAtOnce(w: World, start: nat, e: PlanEntry)
  {
    w.clock(start + 1) < w.clock(start) + VISIBILITY_TIMEOUT_SECONDS && !w.fault(start + 2) && Visible(w, start + 2, e)
  }

  lemma SeenAtOnce(w: World, start: nat, e: PlanEntry)
    ensures VisibleAtOnce(w, start, e) ==> Sees(w, start, e, 0, Some(e.sha256)) && !Sees(w, start, e, 0, None)
  {
    assert RoundAt(w, start, 0) == start + 1;
  }

  lemma SeenNow(w: World, start: nat, e: PlanEntry, i: nat)
    requires Sees(w, start, e, i, Some(e.sha256)) && forall j :: 0 <= j < i ==> Sees(w, start, e, j, None)
    ensures FirstSeen(w, start, e, i) && Visible(w, RoundAt(w, start, i) + 1, e)
  {
  }

  datatype Prepared = Prepared(entry: PlanEntry, remote: Option<Checksum>, newName: bool)

  /** An upload: its plan entry, when it starts, whether its crate name existed, and the clock read for pacing. */
  datatype Upload = Upload(index: nat, time: nat, existing: bool, stamp: int)

  const MAX_PUBLISH_SESSION_SECONDS: nat := 1200
  const MIN_UPLOAD_START_SECONDS: nat := 90
  const EXISTING_CRATE_BURST: nat := 30
  const EXISTING_CRATE_INTERVAL_SECONDS: nat := 61

  function ExistingUploads(uploads: seq<Upload>): nat
  {
    if uploads == [] then 0
    else ExistingUploads(uploads[..|uploads| - 1]) + if uploads[|uploads| - 1].existing then 1 else 0
  }

  /** The stamp of the last upload to an existing name, or zero. */
  function LastExisting(uploads: seq<Upload>): int
  {
    if uploads == [] then 0
    else if uploads[|uploads| - 1].existing then uploads[|uploads| - 1].stamp
    else LastExisting(uploads[..|uploads| - 1])
  }

  predicate PacedAt(uploads: seq<Upload>, i: nat)
    requires i < |uploads|
  {
    uploads[i].existing && ExistingUploads(uploads[..i]) >= EXISTING_CRATE_BURST ==>
      uploads[i].stamp >= LastExisting(uploads[..i]) + EXISTING_CRATE_INTERVAL_SECONDS
  }

  /** After a burst of thirty, uploads to existing names keep their distance from the one before. */
  predicate Paced(uploads: seq<Upload>)
  {
    forall i :: 0 <= i < |uploads| ==> PacedAt(uploads, i)
  }

  lemma PacedSnoc(uploads: seq<Upload>, u: Upload)
    requires Paced(uploads)
    requires u.existing && ExistingUploads(uploads) >= EXISTING_CRATE_BURST ==>
               u.stamp >= LastExisting(uploads) + EXISTING_CRATE_INTERVAL_SECONDS
    ensures Paced(uploads + [u])
    ensures ExistingUploads(uploads + [u]) == ExistingUploads(uploads) + (if u.existing then 1 else 0)
    ensures LastExisting(uploads + [u]) == if u.existing then u.stamp else LastExisting(uploads)
  {
    hide ExistingUploads, LastExisting;
    var all := uploads + [u];
    assert all[..|uploads|] == uploads;
    CountsSnoc(uploads, u);
    forall i | 0 <= i < |all|
      ensures PacedAt(all, i)
    {
      if i < |uploads| {
        assert all[..i] == uploads[..i];
        assert PacedAt(uploads, i);
      }
    }
  }

  lemma CountsSnoc(uploads: seq<Upload>, u: Upload)
    ensures ExistingUploads(uploads + [u]) == ExistingUploads(uploads) + (if u.existing then 1 else 0)
    ensures LastExisting(uploads + [u]) == if u.existing then u.stamp else LastExisting(uploads)
  {
    assert (uploads + [u])[..|uploads|] == uploads;
  }

  /** The waiting of the upload loop before a crate whose name exists, and the check of the session window. */
  method Pace(w: World, start: nat, newName: bool, existingUploads: nat, lastExisting: int, deadline: int)
    returns (ok: bool, now: nat)
    requires Steady(w)
    ensures start <= now
    ensures ok ==> w.clock(now) + MIN_UPLOAD_START_SECONDS <= deadline
    ensures ok && !newName && existingUploads >= EXISTING_CRATE_BURST ==>
              w.clock(now) >= lastExisting + EXISTING_CRATE_INTERVAL_SECONDS
    ensures newName || existingUploads < EXISTING_CRATE_BURST ==>
              now == start + 1 && (ok <==> w.clock(now) + MIN_UPLOAD_START_SECONDS <= deadline)
  {
    now := start;
    if !newName && existingUploads >= EXISTING_CRATE_BURST {
      var delay := lastExisting + EXISTING_CRATE_INTERVAL_SECONDS - w.clock(now);
      if delay > 0 {
        ghost var measured := now;
        now := now + 1;
        if w.clock(now) + delay + MIN_UPLOAD_START_SECONDS > deadline {
          return false, now + 1;
        }
        ClockAdvances(w, measured, now);
        now := w.wake(now, delay);
      }
    }
    ghost var ready := now;
    now := now + 1;
    ClockAdvances(w, ready, now);
    ok := w.clock(now) + MIN_UPLOAD_START_SECONDS <= deadline;
  }

  /** The owners were as expected at some observation of a stretch. */
  ghost predicate OwnedWithin(w: World, from: nat, to: nat)
  {
    exists t: nat :: from <= t < to && w.owned(t)
  }

  /** What the preflight saw of an entry: published as planned or not at all; its name free, or its owners checked. */
  ghost predicate Surveyed(w: World, start: nat, now: nat, e: PlanEntry, p: Prepared)
  {
    && p.entry == e
    && (p.remote.Some? ==> !p.newName && exists t: nat :: t < now && Visible(w, t, e))
    && (p.remote.None? ==> exists t: nat :: start <= t && e.release !in w.published(t))
    && (p.newName ==> exists t: nat :: start <= t < now && e.release.name !in w.names(t))
    && (!p.newName ==> OwnedWithin(w, start, now))
  }

  ghost predicate AllVisible(w: World, t: nat, plan: seq<PlanEntry>, n: nat)
    requires n <= |plan|
  {
    forall j :: 0 <= j < n ==> Visible(w, t, plan[j])
  }

  lemma VisibleStays(w: World, t: nat, u: nat, plan: seq<PlanEntry>, n: nat)
    requires Immutable(w) && t <= u && n <= |plan| && AllVisible(w, t, plan, n)
    ensures AllVisible(w, u, plan, n)
  {
    forall j | 0 <= j < n
      ensures Visible(w, u, plan[j])
    {
      StaysPublished(w, t, u, plan[j].release);
    }
  }

  /** Every prepared archive still has its planned checksum. */
  predicate ArchivesMatch(plan: seq<PlanEntry>, archive: PlanEntry -> Checksum)
  {
    forall i :: 0 <= i < |plan| ==> archive(plan[i]) == plan[i].sha256
  }

  /** The preflight of an entry goes well: its archive is as planned, it is not published, and its name is ours. */
  predicate Absent(w: World, from: nat, e: PlanEntry, checksum: Checksum)
  {
    && checksum == e.sha256 && !w.fault(from) && e.release !in w.published(from)
    && e.release.name in w.names(from + 1) && w.owned(from + 2)
  }

  /** The publication of an entry goes well: in time, seen at the first look, and its owners are as expected. */
  predicate Smooth(w: World, start: nat, from: nat, e: PlanEntry)
  {
    && InWindow(w, start, from + 1) && w.clock(from + 4) < w.clock(from + 3) + VISIBILITY_TIMEOUT_SECONDS
    && !w.fault(from + 5) && Visible(w, from + 5, e) && w.owned(from + 6)
  }

  /** A registry in which everything goes well for a plan that needs no pacing. */
  ghost predicate Favourable(w: World, start: nat, plan: seq<PlanEntry>, archive: PlanEntry -> Checksum)
  {
    && |plan| <= EXISTING_CRATE_BURST
    && (forall i :: 0 <= i < |plan| ==> Absent(w, start + 3 * i, plan[i], archive(plan[i])))
    && (forall i :: 0 <= i < |plan| ==> Smooth(w, start, start + 3 * |plan| + 7 * i, plan[i]))
  }

  /** The preflight of one entry. */
  method SurveyEntry(w: World, start: nat, from: nat, e: PlanEntry, checksum: Checksum)
    returns (ok: bool, p: Prepared, now: nat)
    requires start <= from
    ensures from <= now && (ok ==> checksum == e.sha256 && Surveyed(w, start, now, e, p))
    ensures Absent(w, from, e, checksum) ==> ok && now == from + 3 && p == Prepared(e, None, false)
  {
    p, now := Prepared(e, None, false), from;
    if checksum != e.sha256 {
      return false, p, now;
    }
    var remote := PublishedChecksum(w, now, e.release);
    now := now + 1;
    if remote.Err? || (remote.value.Some? && remote.value.value != checksum) {
      return false, p, now;
    }
    assert remote.value.Some? ==> Visible(w, from, e);
    var existing := remote.value.Some?;
    if !existing {
      existing := e.release.name in w.names(now);
      now := now + 1;
    }
    if existing {
      if !w.owned(now) {
        return false, p, now + 1;
      }
      now := now + 1;
      assert w.owned(now - 1);
    }
    ok, p := true, Prepared(e, remote.value, !existing);
    assert !existing ==> e.release.name !in w.names(now - 1);
  }

  lemma SurveyedLater(w: World, start: nat, now: nat, later: nat, e: PlanEntry, p: Prepared)
    requires now <= later && Surveyed(w, start, now, e, p)
    ensures Surveyed(w, start, later, e, p)
  {
  }

  /** The first loop of `execute_plan`: compare every archive with the plan and with the registry. */
  method Survey(w: World, start: nat, plan: seq<PlanEntry>, archive: PlanEntry -> Checksum)
    returns (ok: bool, prepared: seq<Prepared>, now: nat)
    ensures start <= now
    ensures ok ==> |prepared| == |plan| && forall i :: 0 <= i < |plan| ==> Surveyed(w, start, now, plan[i], prepared[i])
    ensures ok ==> ArchivesMatch(plan, archive)
    ensures Favourable(w, start, plan, archive) ==>
              && ok && now == start + 3 * |plan|
              && forall i :: 0 <= i < |plan| ==> prepared[i] == Prepared(plan[i], None, false)
  {
    hide Surveyed, Absent, Smooth;
    prepared, now := [], start;
    for i := 0 to |plan|
      invariant start <= now && |prepared| == i
      invariant forall j :: 0 <= j < i ==> Surveyed(w, start, now, plan[j], prepared[j])
      invariant forall j :: 0 <= j < i ==> archive(plan[j]) == plan[j].sha256
      invariant Favourable(w, start, plan, archive) ==>
                  now == start + 3 * i && forall j :: 0 <= j < i ==> prepared[j] == Prepared(plan[j], None, false)
    {
      ghost var before := now;
      var p;
      ok, p, now := SurveyEntry(w, start, now, plan[i], archive(plan[i]));
      if !ok {
        return;
      }
      forall j | 0 <= j < i
        ensures Surveyed(w, start, now, plan[j], prepared[j])
      {
        SurveyedLater(w, start, before, now, plan[j], prepared[j]);
      }
      prepared := prepared + [p];
    }
    ok := true;
  }

  function NewNames(prepared: seq<Prepared>): set<nat>
  {
    set i: nat | i < |prepared| && prepared[i].newName
  }

  /** `sum` over the flags. */
  method CountNewNames(prepared: seq<Prepared>) returns (n: nat)
    ensures n == |NewNames(prepared)|
  {
    n := 0;
    assert prepared[..0] == [] && NewNames([]) == {};
    for i := 0 to |prepared|
      invariant n == |NewNames(prepared[..i])|
    {
      assert NewNames(prepared[..i + 1]) == NewNames(prepared[..i]) + if prepared[i].newName then {i} else {};
      if prepared[i].newName {
        n := n + 1;
      }
    }
    assert prepared[..|prepared|] == prepared;
  }

  const NEW_CRATE_BURST: nat := 5

  predicate InWindow(w: World, start: nat, t: nat)
  {
    w.clock(t) + MIN_UPLOAD_START_SECONDS <= w.clock(start) + MAX_PUBLISH_SESSION_SECONDS
  }

  /** What every upload of an execution satisfies, whatever happened before or after it. */
  ghost predicate GoodUpload(w: World, start: nat, plan: seq<PlanEntry>, u: Upload)
  {
    && u.index < |plan| && start <= u.time && AllVisible(w, u.time, plan, u.index)
    && plan[u.index].release !in w.published(start)
    && exists t: nat :: t <= u.time && InWindow(w, start, t)
  }

  /** Uploads come in plan order, each entry at most once. */
  predicate InPlanOrder(uploads: seq<Upload>)
  {
    forall i, j :: 0 <= i < j < |uploads| ==> uploads[i].index < uploads[j].index
  }

  /** Someone else published a crate whose name was free at the preflight. */
  ghost predicate Raced(w: World, from: nat, p: Prepared)
  {
    p.newName && exists t: nat :: from <= t && p.entry.release.name in w.names(t) && Visible(w, t + 2, p.entry)
  }

  /** Why nothing is sent for an entry: the preflight saw it, or it raced. */
  ghost predicate NotDue(w: World, from: nat, p: Prepared)
  {
    p.remote.Some? || Raced(w, from, p)
  }

  /** The body of the upload loop for one entry: sends it unless it is not due, and waits until it is visible. */
  method PublishEntry(
      w: World, start: nat, from: nat, index: nat, p: Prepared, existingUploads: nat, lastExisting: int)
    returns (ok: bool, sent: Option<Upload>, now: nat)
    requires Steady(w) && (p.remote.Some? ==> Visible(w, from, p.entry))
    ensures from <= now
    ensures ok ==> exists t: nat :: from <= t <= now && Visible(w, t, p.entry)
    ensures ok && sent.None? ==> NotDue(w, from, p)
    ensures sent.Some? ==>
              && p.remote.None? && sent.value.index == index && from <= sent.value.time <= now
              && (exists t: nat :: t <= sent.value.time && InWindow(w, start, t))
              && (sent.value.existing && existingUploads >= EXISTING_CRATE_BURST ==>
                    sent.value.stamp >= lastExisting + EXISTING_CRATE_INTERVAL_SECONDS)
              && sent.value.stamp == w.clock(sent.value.time)
              && (!p.newName ==> sent.value.existing)
              && (ok ==> OwnedWithin(w, sent.value.time, now))
    ensures p.remote.None? && !p.newName && existingUploads < EXISTING_CRATE_BURST && Smooth(w, start, from, p.entry) ==>
              ok && sent.Some? && now == from + 7
  {
    hide Steady, FirstSeen, RoundAt;
    sent, now := None, from;
    var e, newName := p.entry, p.newName;
    if p.remote.Some? {
      return true, sent, now;
    }
    if newName {
      var taken := e.release.name in w.names(now);
      now := now + 1;
      if taken {
        if !w.owned(now) {
          return false, sent, now + 1;
        }
        now := now + 1;
        var raced := PublishedChecksum(w, now, e.release);
        if raced.Err? || (raced.value.Some? && raced.value.value != e.sha256) {
          return false, sent, now + 1;
        }
        if raced.value.Some? {
          assert Visible(w, from + 2, e);
          return true, sent, now + 1;
        }
        now := now + 1;
        newName := false;
      }
    }
    var ready;
    ready, now := Pace(w, now, newName, existingUploads, lastExisting, w.clock(start) + MAX_PUBLISH_SESSION_SECONDS);
    if !ready {
      return false, sent, now;
    }
    ghost var checked := now;
    assert InWindow(w, start, checked);
    now := now + 1;
    ClockAdvances(w, checked, now);
    ghost var uploaded := now;
    sent := Some(Upload(index, now, !newName, w.clock(now)));
    ok, now := WaitUntilVisible(w, now + 1, e);
    if !ok {
      return;
    }
    ghost var seen := now - 1;
    assert Visible(w, seen, e);
    ok := w.owned(now);
    now := now + 1;
    assert ok ==> w.owned(now - 1);
  }

  predicate WasSent(uploads: seq<Upload>, index: nat)
  {
    exists k :: 0 <= k < |uploads| && uploads[k].index == index
  }

  /** What holds of the uploads of an execution, whether or not it goes on. */
  ghost predicate GoodLog(w: World, start: nat, plan: seq<PlanEntry>, uploads: seq<Upload>, n: nat)
  {
    && InPlanOrder(uploads) && Paced(uploads)
    && (forall k :: 0 <= k < |uploads| ==> uploads[k].index < n && GoodUpload(w, start, plan, uploads[k]))
    && (AllVisible(w, start, plan, |plan|) ==> uploads == [])
  }

  /** The first `n` entries are settled: visible, sent or not due, and every sent one has had its owners checked. */
  ghost predicate Settled(w: World, surveyed: nat, now: nat, plan: seq<PlanEntry>, prepared: seq<Prepared>, uploads: seq<Upload>, n: nat)
    requires n <= |plan| == |prepared|
  {
    && AllVisible(w, now, plan, n)
    && (forall j :: 0 <= j < n ==> WasSent(uploads, j) || NotDue(w, surveyed, prepared[j]))
    && (forall k :: 0 <= k < |uploads| ==> OwnedWithin(w, uploads[k].time, now))
  }

  /** An upload of the next entry keeps the log good. */
  lemma LogGrows(w: World, start: nat, surveyed: nat, from: nat, plan: seq<PlanEntry>, p: Prepared, uploads: seq<Upload>, n: nat, u: Upload)
    requires Immutable(w) && n < |plan| && GoodLog(w, start, plan, uploads, n) && AllVisible(w, from, plan, n)
    requires Surveyed(w, start, surveyed, plan[n], p) && p.remote.None?
    requires u.index == n && start <= from <= u.time && exists t: nat :: t <= u.time && InWindow(w, start, t)
    requires u.existing && ExistingUploads(uploads) >= EXISTING_CRATE_BURST ==>
               u.stamp >= LastExisting(uploads) + EXISTING_CRATE_INTERVAL_SECONDS
    ensures GoodLog(w, start, plan, uploads + [u], n + 1)
  {
    hide Immutable, Surveyed, AllVisible, Paced, ExistingUploads, LastExisting, InWindow, GoodUpload;
    PacedSnoc(uploads, u);
    VisibleStays(w, from, u.time, plan, n);
    var t: nat :| t <= u.time && InWindow(w, start, t);
    UploadIsGood(w, start, surveyed, t, plan, p, u);
    UploadWasPending(w, start, plan, u);
  }

  lemma SettledStays(w: World, surveyed: nat, now: nat, later: nat, plan: seq<PlanEntry>, prepared: seq<Prepared>, uploads: seq<Upload>, n: nat)
    requires Immutable(w) && now <= later && n <= |plan| == |prepared| && Settled(w, surveyed, now, plan, prepared, uploads, n)
    ensures Settled(w, surveyed, later, plan, prepared, uploads, n)
  {
    hide Immutable, AllVisible, NotDue, WasSent;
    VisibleStays(w, now, later, plan, n);
  }

  /** One more entry, visible by now, and sent or not due. */
  lemma SettledGrows(
      w: World, surveyed: nat, from: nat, now: nat, plan: seq<PlanEntry>, prepared: seq<Prepared>, uploads: seq<Upload>, n: nat, sent: Option<Upload>)
    requires Immutable(w) && surveyed <= from <= now && n < |plan| == |prepared|
    requires Settled(w, surveyed, from, plan, prepared, uploads, n)
    requires exists t: nat :: from <= t <= now && Visible(w, t, plan[n])
    requires sent.None? ==> NotDue(w, from, prepared[n])
    requires sent.Some? ==> sent.value.index == n && OwnedWithin(w, sent.value.time, now)
    ensures Settled(w, surveyed, now, plan, prepared, if sent.Some? then uploads + [sent.value] else uploads, n + 1)
  {
    hide Immutable, OwnedWithin;
    SettledStays(w, surveyed, from, now, plan, prepared, uploads, n);
    var t: nat :| from <= t <= now && Visible(w, t, plan[n]);
    StaysPublished(w, t, now, plan[n].release);
    if sent.Some? {
      var all := uploads + [sent.value];
      assert (forall k :: 0 <= k < |uploads| ==> all[k] == uploads[k]) && all[|uploads|] == sent.value;
      forall j | 0 <= j < n + 1
        ensures WasSent(all, j) || NotDue(w, surveyed, prepared[j])
      {
        if j < n && WasSent(uploads, j) {
          var k :| 0 <= k < |uploads| && uploads[k].index == j;
          assert all[k].index == j;
        } else if j == n {
          assert all[|uploads|].index == j;
        }
      }
    }
  }

  /** `execute_plan` from any registry: whenever an entry is uploaded every earlier plan entry is visible with its
      planned checksum, and nothing is uploaded that was published at the start; on success all are visible, each was
      sent unless it was not due, and owners were checked after each upload. In a favourable registry every entry is
      sent once and the execution succeeds. */
  method ExecutePlan(w: World, start: nat, plan: seq<PlanEntry>, archive: PlanEntry -> Checksum, overrideApproved: bool)
    returns (ok: bool, uploads: seq<Upload>, now: nat, prepared: seq<Prepared>)
    requires Immutable(w) && Steady(w)
    ensures start <= now && GoodLog(w, start, plan, uploads, |plan|)
    ensures uploads != [] ==> ArchivesMatch(plan, archive) && (overrideApproved || |NewNames(prepared)| <= NEW_CRATE_BURST)
    ensures ok ==> |prepared| == |plan| && Settled(w, start, now, plan, prepared, uploads, |plan|)
    ensures ok ==> forall i :: 0 <= i < |plan| ==> Surveyed(w, start, now, plan[i], prepared[i])
    ensures Favourable(w, start, plan, archive) ==> ok && |uploads| == |plan|
  {
    hide ArchivesMatch, Immutable, Steady, Surveyed, GoodUpload, AllVisible, Paced, ExistingUploads, LastExisting;
    hide GoodLog, Settled, Absent, Smooth, NotDue, InWindow, OwnedWithin, NewNames;
    uploads := [];
    NothingUploaded();
    NothingSettled(w, start, plan);
    ok, prepared, now := Survey(w, start, plan, archive);
    if !ok {
      return;
    }
    var newNames := CountNewNames(prepared);
    if Favourable(w, start, plan, archive) { NoNewNames(plan, prepared); }
    if newNames > NEW_CRATE_BURST && !overrideApproved {
      return false, uploads, now, prepared;
    }
    ghost var surveyed := now;
    NothingSettledYet(w, surveyed, plan, prepared);
    var existingUploads, lastExisting := 0, 0;
    for i := 0 to |plan|
      invariant start <= surveyed <= now && GoodLog(w, start, plan, uploads, i)
      invariant Settled(w, surveyed, now, plan, prepared, uploads, i)
      invariant existingUploads == ExistingUploads(uploads) && lastExisting == LastExisting(uploads)
      invariant Favourable(w, start, plan, archive) ==> |uploads| == i && existingUploads <= i && now == surveyed + 7 * i
    {
      ghost var from := now;
      var sent;
      SettledFacts(w, surveyed, now, plan, prepared, uploads, i);
      SurveyedFacts(w, start, surveyed, plan[i], prepared[i]);
      if prepared[i].remote.Some? { SeenInSurvey(w, start, surveyed, now, plan[i], prepared[i]); }
      ok, sent, now := PublishEntry(w, start, now, i, prepared[i], existingUploads, lastExisting);
      if sent.Some? {
        LogGrows(w, start, surveyed, from, plan, prepared[i], uploads, i, sent.value);
        PacedLog(w, start, plan, uploads, i);
        PacedSnoc(uploads, sent.value);
        if ok { SettledGrows(w, surveyed, from, now, plan, prepared, uploads, i, sent); }
        uploads := uploads + [sent.value];
        existingUploads := existingUploads + if sent.value.existing then 1 else 0;
        lastExisting := if sent.value.existing then sent.value.stamp else lastExisting;
      } else {
        LogWaits(w, start, plan, uploads, i);
        if ok { SettledGrows(w, surveyed, from, now, plan, prepared, uploads, i, sent); }
      }
      if !ok {
        LogStops(w, start, plan, uploads, i + 1);
        return;
      }
    }
    SettledFromStart(w, start, surveyed, now, plan, prepared, uploads);
    forall i | 0 <= i < |plan|
      ensures Surveyed(w, start, now, plan[i], prepared[i])
    {
      SurveyedLater(w, start, surveyed, now, plan[i], prepared[i]);
    }
    ok := true;
  }

  lemma NothingSettled(w: World, start: nat, plan: seq<PlanEntry>)
    ensures GoodLog(w, start, plan, [], 0) && GoodLog(w, start, plan, [], |plan|)
  {
  }

  lemma NothingSettledYet(w: World, surveyed: nat, plan: seq<PlanEntry>, prepared: seq<Prepared>)
    requires |plan| == |prepared|
    ensures Settled(w, surveyed, surveyed, plan, prepared, [], 0)
  {
  }

  lemma NoNewNames(plan: seq<PlanEntry>, prepared: seq<Prepared>)
    requires |plan| == |prepared| && forall i :: 0 <= i < |plan| ==> prepared[i] == Prepared(plan[i], None, false)
    ensures |NewNames(prepared)| == 0
  {
    assert NewNames(prepared) == {};
  }

  lemma SettledFacts(w: World, surveyed: nat, now: nat, plan: seq<PlanEntry>, prepared: seq<Prepared>, uploads: seq<Upload>, n: nat)
    requires n <= |plan| == |prepared| && Settled(w, surveyed, now, plan, prepared, uploads, n)
    ensures AllVisible(w, now, plan, n)
  {
  }

  lemma SurveyedFacts(w: World, start: nat, now: nat, e: PlanEntry, p: Prepared)
    requires Surveyed(w, start, now, e, p)
    ensures p.entry == e
  {
  }

  lemma PacedLog(w: World, start: nat, plan: seq<PlanEntry>, uploads: seq<Upload>, n: nat)
    requires GoodLog(w, start, plan, uploads, n)
    ensures Paced(uploads)
  {
  }

  lemma LogWaits(w: World, start: nat, plan: seq<PlanEntry>, uploads: seq<Upload>, n: nat)
    requires GoodLog(w, start, plan, uploads, n)
    ensures GoodLog(w, start, plan, uploads, n + 1)
  {
    hide GoodUpload;
  }

  lemma LogStops(w: World, start: nat, plan: seq<PlanEntry>, uploads: seq<Upload>, n: nat)
    requires n <= |plan| && GoodLog(w, start, plan, uploads, n)
    ensures GoodLog(w, start, plan, uploads, |plan|)
  {
    hide GoodUpload;
  }

  lemma SettledFromStart(w: World, start: nat, surveyed: nat, now: nat, plan: seq<PlanEntry>, prepared: seq<Prepared>, uploads: seq<Upload>)
    requires start <= surveyed && |plan| == |prepared| && Settled(w, surveyed, now, plan, prepared, uploads, |plan|)
    ensures Settled(w, start, now, plan, prepared, uploads, |plan|)
  {
    hide AllVisible, OwnedWithin, WasSent;
  }

  lemma SeenInSurvey(w: World, start: nat, surveyed: nat, now: nat, e: PlanEntry, p: Prepared)
    requires Immutable(w) && surveyed <= now && Surveyed(w, start, surveyed, e, p) && p.remote.Some?
    ensures Visible(w, now, e)
  {
    hide Immutable;
    var t: nat :| t < surveyed && Visible(w, t, e);
    StaysPublished(w, t, now, e.release);
  }

  lemma NothingUploaded()
    ensures Paced([]) && ExistingUploads([]) == 0 && LastExisting([]) == 0
  {
  }

  lemma UploadIsGood(w: World, start: nat, surveyed: nat, checked: nat, plan: seq<PlanEntry>, p: Prepared, u: Upload)
    requires Immutable(w) && start <= u.time && u.index < |plan| && AllVisible(w, u.time, plan, u.index)
    requires checked <= u.time && InWindow(w, start, checked)
    requires Surveyed(w, start, surveyed, plan[u.index], p) && p.remote.None?
    ensures GoodUpload(w, start, plan, u)
  {
    hide Immutable, InWindow;
    var n := u.index;
    var t: nat :| start <= t && plan[n].release !in w.published(t);
    if plan[n].release in w.published(start) {
      StaysPublished(w, start, t, plan[n].release);
      assert false;
    }
  }

  /** A plan that lists the crates of an order. */
  predicate PlanOf(plan: seq<PlanEntry>, order: seq<Id>, entry: Id -> PlanEntry)
  {
    |plan| == |order| && forall i :: 0 <= i < |order| ==> plan[i] == entry(order[i])
  }

  lemma UploadWasPending(w: World, start: nat, plan: seq<PlanEntry>, u: Upload)
    requires GoodUpload(w, start, plan, u)
    ensures !AllVisible(w, start, plan, |plan|)
  {
    assert !Visible(w, start, plan[u.index]);
  }

  /** Every live dependency of the crate of an upload, visible as planned when it starts. */
  ghost predicate DependenciesVisible(w: World, m: Metadata, order: seq<Id>, entry: Id -> PlanEntry, u: Upload)
  {
    u.index < |order| && forall d :: DependsOn(m, order[u.index], d) ==> Visible(w, u.time, entry(d))
  }

  lemma UploadHasDependencies(
      w: World, start: nat, m: Metadata, order: seq<Id>, plan: seq<PlanEntry>, entry: Id -> PlanEntry, u: Upload)
    requires OrdersWorkspace(order, m) && PlanOf(plan, order, entry) && GoodUpload(w, start, plan, u)
    ensures DependenciesVisible(w, m, order, entry, u)
  {
    hide DependsOn, Wanted;
    assert DependenciesBefore(order, m, u.index);
    forall d | DependsOn(m, order[u.index], d)
      ensures Visible(w, u.time, entry(d))
    {
      assert d in order[..u.index];
      var j :| 0 <= j < u.index && order[..u.index][j] == d;
      assert order[j] == d && plan[j] == entry(d);
    }
  }

  /** Ordering a workspace, planning it and executing the plan: from any metadata and any registry, whenever a crate is
      uploaded every live dependency of it is visible as planned, and on success every wanted crate is. A workspace
      without publishable crates is refused. */
  method PublishWorkspace(
      m: Metadata, validName: string -> bool, entry: Id -> PlanEntry,
      w: World, start: nat, archive: PlanEntry -> Checksum, overrideApproved: bool)
    returns (ok: bool, order: seq<Id>, uploads: seq<Upload>, now: nat)
    requires Immutable(w) && Steady(w)
    ensures uploads != [] || ok ==> order != [] && OrdersWorkspace(order, m)
    ensures forall i :: 0 <= i < |uploads| ==> DependenciesVisible(w, m, order, entry, uploads[i])
    ensures ok ==> forall c :: Wanted(m, c) ==> Visible(w, now, entry(c))
  {
    hide Immutable, Steady, OrdersWorkspace, OrderedByChains, GoodUpload, DependenciesVisible, AllVisible, PlanOf, Paced;
    hide GoodLog, Settled, Surveyed, Favourable, ArchivesMatch, NewNames;
    hide AllPackaged, AllDeclared, AllResolved, AllPublic, HasRing, Wanted;
    ok, order, uploads, now := false, [], [], start;
    var ordered := PublicationOrder(m, validName);
    if ordered.Err? {
      return;
    }
    order := ordered.value;
    if order == [] {
      return;
    }
    var plan := seq(|order|, i requires 0 <= i < |order| => entry(order[i]));
    PlanIsOf(plan, order, entry);
    var prepared;
    ok, uploads, now, prepared := ExecutePlan(w, start, plan, archive, overrideApproved);
    GoodLogUploads(w, start, plan, uploads, |plan|);
    forall i | 0 <= i < |uploads|
      ensures DependenciesVisible(w, m, order, entry, uploads[i])
    {
      UploadHasDependencies(w, start, m, order, plan, entry, uploads[i]);
    }
    if ok { SettledFacts(w, start, now, plan, prepared, uploads, |plan|); }
    if ok { AllWantedVisible(w, now, m, order, plan, entry); }
  }

  lemma PlanIsOf(plan: seq<PlanEntry>, order: seq<Id>, entry: Id -> PlanEntry)
    requires |plan| == |order| && forall i :: 0 <= i < |order| ==> plan[i] == entry(order[i])
    ensures PlanOf(plan, order, entry)
  {
  }

  lemma AllWantedVisible(w: World, now: nat, m: Metadata, order: seq<Id>, plan: seq<PlanEntry>, entry: Id -> PlanEntry)
    requires OrdersWorkspace(order, m) && PlanOf(plan, order, entry) && AllVisible(w, now, plan, |plan|)
    ensures forall c :: Wanted(m, c) ==> Visible(w, now, entry(c))
  {
    hide Wanted, DependsOn;
    forall c | Wanted(m, c)
      ensures Visible(w, now, entry(c))
    {
      assert c in order;
      var i :| 0 <= i < |order| && order[i] == c;
      assert plan[i] == entry(c);
    }
  }

  /** A rerun at any later time uploads nothing that was visible when the first run ended, whether that run succeeded
      or failed half-way; after a success it uploads nothing at all. */
  method RerunPlan(w: World, start: nat, plan: seq<PlanEntry>, archive: PlanEntry -> Checksum, overrideApproved: bool, pause: nat)
    returns (first: bool, ended: nat, second: bool, again: seq<Upload>)
    requires Immutable(w) && Steady(w)
    ensures forall i :: 0 <= i < |again| ==> again[i].index < |plan| && plan[again[i].index].release !in w.published(ended)
    ensures first ==> again == []
  {
    hide Immutable, Steady, GoodUpload, AllVisible, Paced, GoodLog, Settled, Surveyed, Favourable, ArchivesMatch, NewNames;
    var uploads, now, prepared;
    first, uploads, ended, prepared := ExecutePlan(w, start, plan, archive, overrideApproved);
    if first { SettledFacts(w, start, ended, plan, prepared, uploads, |plan|); }
    var later := ended + pause;
    if first { VisibleStays(w, ended, later, plan, |plan|); }
    second, again, now, prepared := ExecutePlan(w, later, plan, archive, overrideApproved);
    GoodLogUploads(w, later, plan, again, |plan|);
    forall i | 0 <= i < |again|
      ensures again[i].index < |plan| && plan[again[i].index].release !in w.published(ended)
    {
      UploadWasAbsent(w, ended, later, plan, again[i]);
    }
  }

  lemma GoodLogUploads(w: World, start: nat, plan: seq<PlanEntry>, uploads: seq<Upload>, n: nat)
    requires GoodLog(w, start, plan, uploads, n)
    ensures forall k :: 0 <= k < |uploads| ==> GoodUpload(w, start, plan, uploads[k])
    ensures AllVisible(w, start, plan, |plan|) ==> uploads == []
  {
    hide GoodUpload;
  }

  lemma UploadWasAbsent(w: World, earlier: nat, start: nat, plan: seq<PlanEntry>, u: Upload)
    requires Immutable(w) && earlier <= start && GoodUpload(w, start, plan, u)
    ensures u.index < |plan| && plan[u.index].release !in w.published(earlier)
  {
    hide Immutable, AllVisible, InWindow;
    if plan[u.index].release in w.published(earlier) {
      StaysPublished(w, earlier, start, plan[u.index].release);
      assert false;
    }
  }

  function Releases(plan: seq<PlanEntry>): map<Release, Checksum>
    requires forall i, j :: 0 <= i < j < |plan| ==> plan[i].release != plan[j].release
  {
    map i | 0 <= i < |plan| :: plan[i].release := plan[i].sha256
  }

  /** A registry that publishes a whole plan right after its preflight. */
  function Obliging(plan: seq<PlanEntry>): World
    requires forall i, j :: 0 <= i < j < |plan| ==> plan[i].release != plan[j].release
  {
    var names := set i | 0 <= i < |plan| :: plan[i].release.name;
    World(t => if t < 3 * |plan| then map[] else Releases(plan), t => false, t => names, t => true, t => t, (t, d) => t + d)
  }

  /** Favourable registries exist for every short plan without repeated releases. */
  lemma FavourableExists(plan: seq<PlanEntry>)
    requires |plan| <= EXISTING_CRATE_BURST
    requires forall i, j :: 0 <= i < j < |plan| ==> plan[i].release != plan[j].release
    ensures Immutable(Obliging(plan)) && Steady(Obliging(plan)) && Favourable(Obliging(plan), 0, plan, (e: PlanEntry) => e.sha256)
  {
    ObligingIsRegular(plan);
    hide Obliging, Absent, Smooth, Immutable, Steady;
    forall i | 0 <= i < |plan|
      ensures Absent(Obliging(plan), 0 + 3 * i, plan[i], ((e: PlanEntry) => e.sha256)(plan[i]))
      ensures Smooth(Obliging(plan), 0, 0 + 3 * |plan| + 7 * i, plan[i])
    {
      ObligingEntry(plan, i);
    }
  }

  lemma ObligingIsRegular(plan: seq<PlanEntry>)
    requires forall i, j :: 0 <= i < j < |plan| ==> plan[i].release != plan[j].release
    ensures Immutable(Obliging(plan)) && Steady(Obliging(plan))
  {
    hide Releases;
  }

  lemma ObligingEntry(plan: seq<PlanEntry>, i: nat)
    requires i < |plan| <= EXISTING_CRATE_BURST && forall i, j :: 0 <= i < j < |plan| ==> plan[i].release != plan[j].release
    ensures Absent(Obliging(plan), 3 * i, plan[i], plan[i].sha256) && Smooth(Obliging(plan), 0, 3 * |plan| + 7 * i, plan[i])
  {
    hide Releases;
    ReleasesHold(plan, i);
  }

  lemma ReleasesHold(plan: seq<PlanEntry>, i: nat)
    requires i < |plan| && forall i, j :: 0 <= i < j < |plan| ==> plan[i].release != plan[j].release
    ensures plan[i].release in Releases(plan) && Releases(plan)[plan[i].release] == plan[i].sha256
  {
  }
}

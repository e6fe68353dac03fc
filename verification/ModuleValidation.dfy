/** `validate_module_graph`: the checks in source order, then Kahn's algorithm. */
module ModuleValidation {
  import opened Collections
  import opened Sorting
  import opened Graphs
  import opened ModuleModel
  import opened KahnSort

  // ---------------------------------------------------------------- phases 1 to 5

  method CheckIds(ms: seq<Module>) returns (e: Option<GraphError>, byId: map<string, Module>)
    ensures e.None? <==> UniqueIds(ms)
    ensures e.None? ==> IndexDescribes(byId, ToSet(ms))
    ensures e.Some? ==> e.value.DuplicateModuleId? && Truthful(e.value, ms)
  {
    e, byId := None, map[];
    var seen: set<string> := {};
    for i := 0 to |ms|
      invariant e == None && seen == byId.Keys
      invariant UniqueIds(ms[..i]) && IndexDescribes(byId, ToSet(ms[..i]))
    {
      assert ms[..i + 1] == ms[..i] + [ms[i]];
      assert ToSet(ms[..i + 1]) == ToSet(ms[..i]) + {ms[i]};
      if ms[i].id in seen {
        RepeatedId(ms, i);
        return Some(DuplicateModuleId(ms[i].id)), byId;
      }
      forall m | m in ms[..i] ensures m.id != ms[i].id {
        assert m in ToSet(ms[..i]);
      }
      seen := seen + {ms[i].id};
      byId := byId[ms[i].id := ms[i]];
    }
    assert ms[..|ms|] == ms;
  }

  lemma RepeatedId(ms: seq<Module>, i: nat)
    requires i < |ms| && ms[i].id in Ids(ToSet(ms[..i]))
    ensures !UniqueIds(ms) && Truthful(DuplicateModuleId(ms[i].id), ms)
  {
    var m :| m in ToSet(ms[..i]) && m.id == ms[i].id;
    var k :| 0 <= k < i && ms[k] == m;
    assert !OtherId(ms[k], ms[i]);
  }

  method CheckSources(ms: seq<Module>, normalize: string -> string) returns (e: Option<GraphError>)
    ensures e.None? <==> forall a, b :: 0 <= a < b < |ms| ==> normalize(ms[a].source) != normalize(ms[b].source)
    ensures e.Some? ==> exists a, b :: 0 <= a < b < |ms| && normalize(ms[a].source) == normalize(ms[b].source)
                                       && e.value == SourceCollision(ms[b].id, ms[a].id, ms[b].source)
  {
    var sourceDirs: map<string, string> := map[];
    for i := 0 to |ms|
      invariant forall a, b :: 0 <= a < b < i ==> normalize(ms[a].source) != normalize(ms[b].source)
      invariant forall k :: 0 <= k < i ==> normalize(ms[k].source) in sourceDirs
      invariant forall x :: x in sourceDirs ==>
        exists k :: 0 <= k < i && normalize(ms[k].source) == x && ms[k].id == sourceDirs[x]
    {
      var norm := normalize(ms[i].source);
      if norm in sourceDirs {
        return Some(SourceCollision(ms[i].id, sourceDirs[norm], ms[i].source));
      }
      sourceDirs := sourceDirs[norm := ms[i].id];
    }
    e := None;
  }

  /** A list without repetition up to `j`, whose entry `j` repeats an earlier one. */
  lemma RepeatedEntry(s: seq<string>, j: nat)
    requires j < |s| && s[j] in s[..j]
    ensures multiset(s)[s[j]] >= 2 && !Distinct(s)
  {
    var i :| 0 <= i < j && s[..j][i] == s[j];
    CountedTwice(s, i, j);
  }

  method AddOffers(m: Module, providers: map<string, string>)
      returns (e: Option<GraphError>, after: map<string, string>)
    ensures e.None? <==> Distinct(ProvidedIds(m)) && forall x :: x in ProvidedIds(m) ==> x !in providers
    ensures e.None? ==> after.Keys == providers.Keys + ToSet(ProvidedIds(m))
    ensures e.None? ==> forall x :: x in after ==> after[x] == if x in providers then providers[x] else m.id
    ensures e.Some? ==>
      || (e.value.DuplicateProvided? && e.value.id == m.id && multiset(ProvidedIds(m))[e.value.iface] >= 2)
      || (e.value.ProviderCollision? && e.value.id == m.id && e.value.iface in ProvidedIds(m)
          && e.value.iface in providers && e.value.other == providers[e.value.iface])
  {
    var local: set<string> := {};
    ghost var offered := ProvidedIds(m);
    after := providers;
    for j := 0 to |m.offers|
      invariant local == ToSet(offered[..j]) && Distinct(offered[..j])
      invariant forall x :: x in local ==> x !in providers
      invariant after.Keys == providers.Keys + local
      invariant forall x :: x in after ==> after[x] == if x in providers then providers[x] else m.id
    {
      var p := m.offers[j].id;
      assert p == offered[j];
      assert offered[..j + 1] == offered[..j] + [p];
      if p in local {
        RepeatedEntry(offered, j);
        return Some(DuplicateProvided(m.id, p)), after;
      }
      local := local + {p};
      if p in after {
        return Some(ProviderCollision(m.id, after[p], p)), after;
      }
      after := after[p := m.id];
    }
    assert offered[..|m.offers|] == offered;
    e := None;
  }

  /** The provider table after one more module without a clash. */
  lemma ProvidersExtend(before: map<string, string>, after: map<string, string>, ms: set<Module>, m: Module)
    requires ProvidersDescribe(before, ms)
    requires forall x :: x in ProvidedIds(m) ==> x !in before
    requires after.Keys == before.Keys + ToSet(ProvidedIds(m))
    requires forall x :: x in after ==> after[x] == if x in before then before[x] else m.id
    ensures ProvidersDescribe(after, ms + {m})
    ensures forall a :: a in ms ==> NoSharedInterface(a, m)
  {
    forall i | i in after ensures Provides(ms + {m}, after[i], i) {
      if i in before {
        var p :| p in ms && p.id == before[i] && i in ProvidedIds(p);
        assert p in ms + {m};
      } else {
        assert m in ms + {m} && i in ToSet(ProvidedIds(m));
      }
    }
    forall p, i | p in ms + {m} && i in ProvidedIds(p) ensures i in after && after[i] == p.id {
      assert p != m ==> i in before;
      assert i in ToSet(ProvidedIds(m)) <==> i in ProvidedIds(m);
    }
    forall a | a in ms ensures NoSharedInterface(a, m) {
      forall i | i in ProvidedIds(a) ensures i !in ProvidedIds(m) {
        assert i in before;
      }
    }
  }

  /** Finding the provider a new module clashes with. */
  lemma ProvidersClash(providers: map<string, string>, ms: seq<Module>, i: nat, iface: string)
    requires i < |ms| && ProvidersDescribe(providers, ToSet(ms[..i]))
    requires iface in providers && iface in ProvidedIds(ms[i])
    ensures !UniqueProviders(ms) && Truthful(ProviderCollision(ms[i].id, providers[iface], iface), ms)
  {
    var p :| p in ToSet(ms[..i]) && p.id == providers[iface] && iface in ProvidedIds(p);
    var k :| 0 <= k < i && ms[k] == p;
    assert !NoSharedInterface(ms[k], ms[i]);
  }

  lemma PrefixGrows(ms: seq<Module>, i: nat)
    requires i < |ms|
    ensures ToSet(ms[..i + 1]) == ToSet(ms[..i]) + {ms[i]}
    ensures var apart := forall a :: a in ToSet(ms[..i]) ==> NoSharedInterface(a, ms[i]);
      UniqueProviders(ms[..i]) && Distinct(ProvidedIds(ms[i])) && apart ==> UniqueProviders(ms[..i + 1])
  {
    assert ms[..i + 1] == ms[..i] + [ms[i]];
    assert forall k :: 0 <= k < i ==> ms[..i + 1][k] == ms[..i][k] && ms[k] in ToSet(ms[..i]);
  }

  method CheckProviders(ms: seq<Module>) returns (e: Option<GraphError>, providers: map<string, string>)
    ensures e.None? <==> UniqueProviders(ms)
    ensures e.None? ==> ProvidersDescribe(providers, ToSet(ms))
    ensures e.Some? ==> (e.value.DuplicateProvided? || e.value.ProviderCollision?) && Truthful(e.value, ms)
  {
    e, providers := None, map[];
    for i := 0 to |ms|
      invariant e == None
      invariant UniqueProviders(ms[..i]) && ProvidersDescribe(providers, ToSet(ms[..i]))
    {
      ghost var before := providers;
      e, providers := AddOffers(ms[i], providers);
      assert ms[i] in ms;
      if e.Some? {
        if e.value.ProviderCollision? {
          ProvidersClash(before, ms, i, e.value.iface);
        } else {
          TwoPositionsNotDistinct(ProvidedIds(ms[i]), e.value.iface);
        }
        return;
      }
      ProvidersExtend(before, providers, ToSet(ms[..i]), ms[i]);
      PrefixGrows(ms, i);
    }
    assert ms[..|ms|] == ms;
  }

  lemma TwoPositionsNotDistinct(s: seq<string>, x: string)
    requires multiset(s)[x] >= 2
    ensures !Distinct(s)
  {
    var i, j := TwoPositions(s, x);
  }

  /** First repeated entry of a list, as the nested duplicate scans find it. */
  method FirstRepeat(s: seq<string>) returns (r: Option<string>)
    ensures r.None? <==> Distinct(s)
    ensures r.Some? ==> multiset(s)[r.value] >= 2
  {
    var local: set<string> := {};
    for j := 0 to |s|
      invariant local == ToSet(s[..j]) && Distinct(s[..j])
    {
      assert s[..j + 1] == s[..j] + [s[j]];
      if s[j] in local {
        RepeatedEntry(s, j);
        return Some(s[j]);
      }
      local := local + {s[j]};
    }
    assert s[..|s|] == s;
    r := None;
  }

  method CheckRequests(ms: seq<Module>) returns (e: Option<GraphError>)
    ensures e.None? <==> UniqueRequests(ms)
    ensures e.Some? ==> (e.value.DuplicateRequired? || e.value.DuplicateResource?) && Truthful(e.value, ms)
  {
    for i := 0 to |ms|
      invariant forall k :: 0 <= k < i ==> Distinct(ms[k].needs) && Distinct(ResourceIds(ms[k]))
    {
      var m := ms[i];
      assert m in ms;
      var needed := FirstRepeat(m.needs);
      if needed.Some? {
        return Some(DuplicateRequired(m.id, needed.value));
      }
      var requested := FirstRepeat(ResourceIds(m));
      if requested.Some? {
        return Some(DuplicateResource(m.id, requested.value));
      }
    }
    e := None;
  }

  function ResourceIdSet(ms: seq<Module>): (r: set<string>)
    ensures forall x :: x in r <==> Requested(ToSet(ms), x)
  {
    if ms == [] then {}
    else
      var r := ToSet(ResourceIds(ms[0])) + ResourceIdSet(ms[1..]);
      assert ToSet(ms) == {ms[0]} + ToSet(ms[1..]);
      assert forall x :: Requested(ToSet(ms), x) <==> x in ResourceIds(ms[0]) || Requested(ToSet(ms[1..]), x);
      r
  }

  method CheckReferences(ms: seq<Module>, seenIds: set<string>, providers: map<string, string>)
      returns (e: Option<GraphError>)
    requires seenIds == Ids(ToSet(ms)) && ProvidersDescribe(providers, ToSet(ms))
    ensures e.None? <==> DependenciesOk(ToSet(ms))
    ensures e.Some? ==>
      (e.value.UnresolvedInterface? || e.value.SelfStartAfter? || e.value.UnknownStartAfter?) && Truthful(e.value, ms)
  {
    ghost var all := ToSet(ms);
    var seenResources := ResourceIdSet(ms);
    for i := 0 to |ms|
      invariant forall k :: 0 <= k < i ==> ModuleResolved(all, ms[k])
    {
      var m := ms[i];
      assert m in ms && m in all;
      for j := 0 to |m.needs|
        invariant forall n :: n in m.needs[..j] ==> n in providers && Provides(all, providers[n], n)
      {
        assert m.needs[..j + 1] == m.needs[..j] + [m.needs[j]];
        if m.needs[j] !in providers {
          assert forall p :: !Provides(all, p, m.needs[j]);
          assert m.needs[j] in m.needs && !ModuleResolved(all, m);
          return Some(UnresolvedInterface(m.id, m.needs[j]));
        }
      }
      assert m.needs[..|m.needs|] == m.needs;
      for j := 0 to |m.startAfter|
        invariant forall d :: d in m.startAfter[..j] ==> d != m.id && (d in Ids(all) || Requested(all, d))
      {
        var d := m.startAfter[j];
        assert m.startAfter[..j + 1] == m.startAfter[..j] + [d];
        assert d in m.startAfter;
        if d == m.id {
          assert !ModuleResolved(all, m);
          return Some(SelfStartAfter(m.id));
        }
        if d !in seenIds && d !in seenResources {
          assert !ModuleResolved(all, m);
          return Some(UnknownStartAfter(m.id, d));
        }
      }
      assert m.startAfter[..|m.startAfter|] == m.startAfter;
    }
    e := None;
  }

  // ---------------------------------------------------------------- phase 6

  /** Module `m` puts this provider before itself. */
  predicate LinksProvider(m: Module, provider: string) {
    provider != "" && provider != m.id
  }

  ghost predicate Linked(m: Module, provider: string, edges: Edges) {
    LinksProvider(m, provider) ==> (provider, m.id) in edges
  }

  ghost predicate LinkedAfter(m: Module, a: string, nodes: set<string>, edges: Edges) {
    a in nodes && a != m.id ==> (a, m.id) in edges
  }

  /** The tables agree with the edges found so far, and those are all wanted. */
  ghost predicate Progress(adj: Successors, inDegree: Degrees, nodes: set<string>, edges: Edges, target: Edges) {
    Tabulates(adj, inDegree, nodes, edges) && edges <= target
  }

  method LinkWhen(wanted: bool, a: string, b: string, adj0: Successors, inDegree0: Degrees, ghost nodes: set<string>,
      ghost edges0: Edges, ghost target: Edges)
    returns (adj: Successors, inDegree: Degrees, ghost edges: Edges)
    requires b in nodes && (wanted ==> a in nodes && (a, b) in target)
    requires Progress(adj0, inDegree0, nodes, edges0, target)
    ensures Progress(adj, inDegree, nodes, edges, target)
    ensures edges == if wanted then edges0 + {(a, b)} else edges0
  {
    adj, inDegree, edges := adj0, inDegree0, edges0;
    if wanted {
      adj, inDegree := Link(adj, inDegree, a, b, nodes, edges);
      edges := edges + {(a, b)};
    }
  }

  method LinkInterfaces(m: Module, providers: map<string, string>, adj0: Successors, inDegree0: Degrees,
      ghost nodes: set<string>, ghost edges0: Edges, ghost target: Edges)
    returns (adj: Successors, inDegree: Degrees, ghost edges: Edges)
    requires forall n :: n in m.needs ==> n in providers && providers[n] in nodes && Linked(m, providers[n], target)
    requires m.id in nodes && Progress(adj0, inDegree0, nodes, edges0, target)
    ensures Progress(adj, inDegree, nodes, edges, target) && edges0 <= edges
    ensures forall n :: n in m.needs ==> Linked(m, providers[n], edges)
  {
    adj, inDegree, edges := adj0, inDegree0, edges0;
    for j := 0 to |m.needs|
      invariant Progress(adj, inDegree, nodes, edges, target) && edges0 <= edges
      invariant forall n :: n in m.needs[..j] ==> Linked(m, providers[n], edges)
    {
      assert m.needs[..j + 1] == m.needs[..j] + [m.needs[j]];
      var provider := providers[m.needs[j]];
      adj, inDegree, edges := LinkWhen(LinksProvider(m, provider), provider, m.id, adj, inDegree, nodes, edges, target);
    }
    assert m.needs[..|m.needs|] == m.needs;
  }

  method LinkLifecycle(m: Module, adj0: Successors, inDegree0: Degrees, ghost nodes: set<string>, ghost edges0: Edges,
      ghost target: Edges)
    returns (adj: Successors, inDegree: Degrees, ghost edges: Edges)
    requires forall a :: a in m.startAfter ==> LinkedAfter(m, a, nodes, target)
    requires m.id in nodes && Progress(adj0, inDegree0, nodes, edges0, target)
    ensures Progress(adj, inDegree, nodes, edges, target) && edges0 <= edges
    ensures forall a :: a in m.startAfter ==> LinkedAfter(m, a, nodes, edges)
  {
    adj, inDegree, edges := adj0, inDegree0, edges0;
    for j := 0 to |m.startAfter|
      invariant Progress(adj, inDegree, nodes, edges, target) && edges0 <= edges
      invariant forall a :: a in m.startAfter[..j] ==> LinkedAfter(m, a, nodes, edges)
    {
      assert m.startAfter[..j + 1] == m.startAfter[..j] + [m.startAfter[j]];
      var a := m.startAfter[j];
      assert LinkedAfter(m, a, nodes, target);
      adj, inDegree, edges := LinkWhen(a in adj && a != m.id, a, m.id, adj, inDegree, nodes, edges, target);
    }
    assert m.startAfter[..|m.startAfter|] == m.startAfter;
  }

  /** The two loops of one module link exactly the modules it waits for. */
  lemma LinkedIffWaits(all: set<Module>, m: Module, providers: map<string, string>, a: string)
    requires m in all && ProvidersDescribe(providers, all) && ModuleResolved(all, m)
    ensures WaitsFor(all, m, a) <==>
            || (LinksProvider(m, a) && exists n :: n in m.needs && n in providers && providers[n] == a)
            || (a in m.startAfter && a in Ids(all) && a != m.id)
  {
    forall n | n in m.needs ensures n in providers && (Provides(all, a, n) <==> providers[n] == a) {
      NeedResolved(all, m, providers, n);
    }
  }

  lemma NeedResolved(all: set<Module>, m: Module, providers: map<string, string>, n: string)
    requires m in all && ProvidersDescribe(providers, all) && ModuleResolved(all, m) && n in m.needs
    ensures n in providers && Provides(all, providers[n], n) && providers[n] in Ids(all)
    ensures forall a :: Provides(all, a, n) ==> providers[n] == a
  {
    var id :| Provides(all, id, n);
  }

  function IdList(ms: seq<Module>): (ids: seq<string>)
    ensures |ids| == |ms| && forall i :: 0 <= i < |ms| ==> ids[i] == ms[i].id
  {
    seq(|ms|, i requires 0 <= i < |ms| => ms[i].id)
  }

  lemma IdListDistinct(ms: seq<Module>)
    requires UniqueIds(ms)
    ensures Distinct(IdList(ms)) && ToSet(IdList(ms)) == Ids(ToSet(ms))
  {
    var ids := IdList(ms);
    forall i, j | 0 <= i < j < |ids| ensures ids[i] != ids[j] {
      assert OtherId(ms[i], ms[j]);
    }
    forall x ensures x in ToSet(ids) <==> x in Ids(ToSet(ms)) {
      if x in ToSet(ids) {
        var i :| 0 <= i < |ids| && ids[i] == x;
        assert ms[i] in ToSet(ms);
      }
      if x in Ids(ToSet(ms)) {
        var m :| m in ToSet(ms) && m.id == x;
        var i :| 0 <= i < |ms| && ms[i] == m;
        assert ids[i] == x;
      }
    }
  }

  lemma ModuleEdges(all: set<Module>, m: Module, providers: map<string, string>)
    requires m in all && ProvidersDescribe(providers, all) && ModuleResolved(all, m)
    ensures m.id in Ids(all)
    ensures forall n :: n in m.needs ==>
      n in providers && providers[n] in Ids(all) && Linked(m, providers[n], DependencyEdges(all))
    ensures forall a :: a in m.startAfter ==> LinkedAfter(m, a, Ids(all), DependencyEdges(all))
  {
    forall n | n in m.needs
      ensures n in providers && providers[n] in Ids(all) && Linked(m, providers[n], DependencyEdges(all))
    {
      NeedResolved(all, m, providers, n);
      var a := providers[n];
      if LinksProvider(m, a) {
        assert WaitsFor(all, m, a) && Precedes(all, a, m.id);
      }
    }
    forall a | a in m.startAfter ensures LinkedAfter(m, a, Ids(all), DependencyEdges(all)) {
      if a in Ids(all) && a != m.id {
        assert WaitsFor(all, m, a) && Precedes(all, a, m.id);
      }
    }
  }

  /** All edges into module `m` are present. */
  ghost predicate EdgesInto(all: set<Module>, m: Module, edges: Edges) {
    forall a :: WaitsFor(all, m, a) ==> (a, m.id) in edges
  }

  method LinkModule(m: Module, providers: map<string, string>, adj0: Successors, inDegree0: Degrees,
      ghost all: set<Module>, ghost edges0: Edges)
    returns (adj: Successors, inDegree: Degrees, ghost edges: Edges)
    requires m in all && ProvidersDescribe(providers, all) && ModuleResolved(all, m)
    requires Tabulates(adj0, inDegree0, Ids(all), edges0) && edges0 <= DependencyEdges(all)
    ensures Tabulates(adj, inDegree, Ids(all), edges) && edges0 <= edges <= DependencyEdges(all)
    ensures EdgesInto(all, m, edges)
  {
    ModuleEdges(all, m, providers);
    ghost var target := DependencyEdges(all);
    adj, inDegree, edges := LinkInterfaces(m, providers, adj0, inDegree0, Ids(all), edges0, target);
    adj, inDegree, edges := LinkLifecycle(m, adj, inDegree, Ids(all), edges, target);
    forall a | WaitsFor(all, m, a) ensures (a, m.id) in edges {
      LinkedIffWaits(all, m, providers, a);
      assert a in m.startAfter ==> LinkedAfter(m, a, Ids(all), edges);
    }
  }

  lemma NoMissingEdge(all: set<Module>, edges: Edges)
    requires edges <= DependencyEdges(all) && forall m :: m in all ==> EdgesInto(all, m, edges)
    ensures edges == DependencyEdges(all)
  {
    forall a, b | (a, b) in DependencyEdges(all) ensures (a, b) in edges {
      var m :| m in all && m.id == b && WaitsFor(all, m, a);
      assert EdgesInto(all, m, edges);
    }
  }

  lemma EdgesStay(all: set<Module>, ms: seq<Module>, i: nat, before: Edges, edges: Edges)
    requires i < |ms| && before <= edges && EdgesInto(all, ms[i], edges)
    requires forall m :: m in ms[..i] ==> EdgesInto(all, m, before)
    ensures forall m :: m in ms[..i + 1] ==> EdgesInto(all, m, edges)
  {
    forall m | m in ms[..i + 1] ensures EdgesInto(all, m, edges) {
      assert ms[..i + 1] == ms[..i] + [ms[i]];
      assert m in ms[..i] ==> EdgesInto(all, m, before);
    }
  }

  method BuildEdges(ms: seq<Module>, providers: map<string, string>)
    returns (adj: Successors, inDegree: Degrees)
    requires ProvidersDescribe(providers, ToSet(ms)) && DependenciesOk(ToSet(ms))
    ensures Tabulates(adj, inDegree, Ids(ToSet(ms)), DependencyEdges(ToSet(ms)))
  {
    ghost var all := ToSet(ms);
    ghost var edges: Edges := {};
    adj := map m | m in ms :: m.id := {};
    inDegree := map m | m in ms :: m.id := 0;
    assert adj.Keys == Ids(all) && inDegree.Keys == Ids(all);
    assert forall b :: Preds(Ids(all), {}, b) == {};
    for i := 0 to |ms|
      invariant Tabulates(adj, inDegree, Ids(all), edges) && edges <= DependencyEdges(all)
      invariant forall m :: m in ms[..i] ==> EdgesInto(all, m, edges)
    {
      assert ms[i] in all;
      ghost var before := edges;
      adj, inDegree, edges := LinkModule(ms[i], providers, adj, inDegree, all, edges);
      EdgesStay(all, ms, i, before, edges);
    }
    NoMissingEdge(all, edges);
  }

  /** Acyclicity, the completeness of the order and the ids a failure names, tied together. */
  lemma SortOutcome(ms: set<Module>)
    ensures |Order(Ids(ms), DependencyEdges(ms))| <= |Ids(ms)|
    ensures |Order(Ids(ms), DependencyEdges(ms))| == |Ids(ms)| <==> Acyclic(DependencyEdges(ms))
    ensures SortedSet(Ids(ms) - ToSet(Order(Ids(ms), DependencyEdges(ms)))) == CycleReport(ms)
    ensures |Order(Ids(ms), DependencyEdges(ms))| < |Ids(ms)| ==> CycleReport(ms) != []
  {
    var nodes, edges := Ids(ms), DependencyEdges(ms);
    var placed := ToSet(Order(nodes, edges));
    CompleteIffAcyclic(nodes, edges);
    DistinctCardinality(Order(nodes, edges));
    SubsetCardinality(placed, nodes);
    var tainted := set id | id in nodes && Tainted(id, edges);
    forall id ensures id in nodes - placed <==> id in tainted {
      if id in nodes {
        LeftoversAreTainted(nodes, edges, id);
      }
    }
    assert nodes - placed == tainted;
    if placed != nodes {
      var id :| id in nodes && id !in placed;
      assert id in ToSet(SortedSet(tainted));
    }
  }

  /** Phases 1 to 5, which look at the list without following references. */
  method CheckStructure(ms: seq<Module>)
      returns (e: Option<GraphError>, byId: map<string, Module>, providers: map<string, string>)
    ensures e.None? <==> StructureOk(ms)
    ensures e.None? ==> IndexDescribes(byId, ToSet(ms)) && ProvidersDescribe(providers, ToSet(ms))
    ensures e.Some? ==> Truthful(e.value, ms) && Blames(e.value, ms)
  {
    providers := map[];
    e, byId := CheckIds(ms);
    if e.Some? {
      return;
    }
    e := CheckSources(ms, PosixPath.AsPosix);
    assert e.None? <==> UniqueSources(ms) by {
      assert forall a, b :: 0 <= a < b < |ms| ==>
        (OtherSource(ms[a], ms[b]) <==> PosixPath.AsPosix(ms[a].source) != PosixPath.AsPosix(ms[b].source));
    }
    if e.Some? {
      return;
    }
    e, providers := CheckProviders(ms);
    if e.Some? {
      return;
    }
    e := CheckRequests(ms);
  }

  method ValidateModuleGraph(ms: seq<Module>) returns (r: Result<Graph, GraphError>)
    ensures Validated(ms, r)
  {
    var e, byId, providers := CheckStructure(ms);
    if e.Some? {
      return Err(e.value);
    }
    e := CheckReferences(ms, byId.Keys, providers);
    if e.Some? {
      return Err(e.value);
    }
    ghost var all := ToSet(ms);
    var adj, inDegree := BuildEdges(ms, providers);
    IdListDistinct(ms);
    var order, blocked := Kahn(IdList(ms), adj, inDegree, DependencyEdges(all));
    SortOutcome(all);
    DistinctCardinality(IdList(ms));
    if |order| < |ms| {
      return Err(DependencyCycle(blocked));
    }
    r := Ok(Graph(byId, providers, order, Reverse(order)));
  }
}

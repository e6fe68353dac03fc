/** `assemble_application` as a whole, and what an assembly promises. */
module AssemblyTheorems {
  import opened Collections
  import opened Sorting
  import opened Graphs
  import opened ModuleModel
  import opened ModuleValidation
  import opened GraphTheorems
  import opened Assembly

  ghost predicate GraphAccepted(ms: seq<Module>) {
    StructureOk(ms) && DependenciesOk(ToSet(ms)) && Acyclic(DependencyEdges(ToSet(ms)))
  }

  /** Resource ids that are module ids as well. */
  ghost function Collisions(ms: set<Module>): set<string> {
    set id | id in Ids(ms) && Requested(ms, id)
  }

  ghost predicate BuiltFrom(a: Application, ms: set<Module>, g: Graph, resources: map<string, Resource>) {
    Describes(g, ms) && ResourcesDescribe(resources, ms) && Buildable(g) && a == Assembled(g, resources)
  }

  ghost predicate AssemblyOutcome(ms: seq<Module>, r: Result<Application, AssemblyError>) {
    && (r.Ok? <==> GraphAccepted(ms) && ResourcesAgree(ToSet(ms)) && Collisions(ToSet(ms)) == {})
    && (r.Ok? ==> exists g, resources :: BuiltFrom(r.value, ToSet(ms), g, resources))
    && (r.Err? ==>
          && (r.error.InvalidGraph? <==> !GraphAccepted(ms))
          && (r.error.InvalidGraph? ==> Validated(ms, Err(r.error.cause)))
          && (r.error.ConflictingResource? <==> GraphAccepted(ms) && !ResourcesAgree(ToSet(ms)))
          && (r.error.ResourceIdCollision? ==> r.error.ids == SortedSet(Collisions(ToSet(ms)))))
  }

  lemma AcceptedIsBuildable(g: Graph, ms: set<Module>)
    requires Describes(g, ms) && DependenciesOk(ms)
    ensures Buildable(g)
  {
    forall id | id in g.order ensures id in g.modulesById && Provided(g.modulesById[id], g.providers) {
      assert id in ToSet(g.order);
      var m :| m in ms && m.id == id;
      assert ModuleResolved(ms, m);
      forall n | n in m.needs ensures n in g.providers {
        NeedResolved(ms, m, g.providers, n);
      }
    }
  }

  method AssembleApplication(ms: seq<Module>) returns (r: Result<Application, AssemblyError>)
    ensures AssemblyOutcome(ms, r)
  {
    var validated := ValidateModuleGraph(ms);
    if validated.Err? {
      return Err(InvalidGraph(validated.error));
    }
    var g := validated.value;
    var collected := CollectResources(ms);
    if collected.Err? {
      return Err(collected.error);
    }
    var resources := collected.value;
    var collisions := set id | id in resources && id in g.modulesById;
    assert collisions == Collisions(ToSet(ms));
    if collisions != {} {
      return Err(ResourceIdCollision(SortedSet(collisions)));
    }
    AcceptedIsBuildable(g, ToSet(ms));
    var a := BuildApplication(g, resources);
    assert BuiltFrom(a, ToSet(ms), g, resources);
    r := Ok(a);
  }

  // ---------------------------------------------------------------- order independence

  lemma ResourcesDescribeOneTable(r: map<string, Resource>, s: map<string, Resource>, ms: set<Module>)
    requires ResourcesDescribe(r, ms) && ResourcesDescribe(s, ms)
    ensures r == s
  {
    forall x ensures x in r <==> x in s {
    }
    forall x | x in r ensures r[x] == s[x] {
      var m :| m in ms && x in ResourceIds(m);
      RequestedIffRequest(m, x);
      var q :| q in m.resources && q.id == x;
      assert Backed(q, ms);
    }
  }

  /** Listing the modules in another order changes nothing downstream: same failure class, or the same assembly. */
  lemma AssemblyPermutation(a: seq<Module>, b: seq<Module>, r: Result<Application, AssemblyError>,
      s: Result<Application, AssemblyError>)
    requires multiset(a) == multiset(b) && AssemblyOutcome(a, r) && AssemblyOutcome(b, s)
    ensures r.Ok? == s.Ok?
    ensures r.Ok? ==> r == s
    ensures r.Err? ==> r.error.Class() == s.error.Class()
    ensures r.Err? ==> (r.error.Class().DependencyError? <==> StructureOk(a) && r.error.InvalidGraph?)
  {
    StructurePermutation(a, b);
    StructurePermutation(b, a);
    SameMultisetSameElements(a, b);
    if r.Ok? {
      var g, p :| BuiltFrom(r.value, ToSet(a), g, p);
      var h, q :| BuiltFrom(s.value, ToSet(b), h, q);
      DescribesOneGraph(g, h, ToSet(a));
      ResourcesDescribeOneTable(p, q, ToSet(a));
    } else if r.error.InvalidGraph? {
      ValidationPermutation(a, b, Err(r.error.cause), Err(s.error.cause));
    }
  }

  // ---------------------------------------------------------------- edges and dependencies

  /** The edges an application is meant to have, read off the module definitions. */
  ghost predicate Wanted(e: AssemblyEdge, ms: set<Module>) {
    exists m :: m in ms && m.id == e.target && WantedBy(e, m, ms)
  }

  ghost predicate WantedBy(e: AssemblyEdge, m: Module, ms: set<Module>) {
    || (e.kind == "interface" && e.via in m.needs && Provides(ms, e.source, e.via))
    || (e.kind == "resource" && e.via == e.source && e.source in ResourceIds(m))
    || (e.kind == "lifecycle" && e.via == e.source && e.source in m.startAfter)
  }

  lemma {:induction false} CollectedMembers(g: Graph, order: seq<string>, e: AssemblyEdge)
    requires forall id :: id in order ==> id in g.modulesById && Provided(g.modulesById[id], g.providers)
    ensures e in CollectEdges(g, order) <==> exists id :: id in order && e in EdgesOf(g.modulesById[id], g.providers)
  {
    if order != [] {
      var last := |order| - 1;
      assert order == order[..last] + [order[last]];
      CollectedMembers(g, order[..last], e);
    }
  }

  lemma ModuleEdgeMembers(m: Module, ms: set<Module>, providers: map<string, string>, e: AssemblyEdge)
    requires m in ms && ModuleResolved(ms, m) && ProvidersDescribe(providers, ms) && Provided(m, providers)
    ensures e in EdgesOf(m, providers) <==> e.target == m.id && WantedBy(e, m, ms)
  {
    if e in InterfaceEdges(m, providers) {
      var i :| 0 <= i < |m.needs| && InterfaceEdges(m, providers)[i] == e;
      NeedResolved(ms, m, providers, m.needs[i]);
    }
    if e in ResourceEdges(m) {
      var i :| 0 <= i < |m.resources| && ResourceEdges(m)[i] == e;
      assert ResourceIds(m)[i] == e.source;
    }
    if e in LifecycleEdges(m) {
      var i :| 0 <= i < |m.startAfter| && LifecycleEdges(m)[i] == e;
    }
    if e.target == m.id && WantedBy(e, m, ms) {
      if e.kind == "interface" {
        NeedResolved(ms, m, providers, e.via);
        var i :| 0 <= i < |m.needs| && m.needs[i] == e.via;
        assert InterfaceEdges(m, providers)[i] == e;
      } else if e.kind == "resource" {
        var i :| 0 <= i < |m.resources| && ResourceIds(m)[i] == e.source;
        assert ResourceEdges(m)[i] == e;
      } else {
        var i :| 0 <= i < |m.startAfter| && m.startAfter[i] == e.source;
        assert LifecycleEdges(m)[i] == e;
      }
    }
  }

  /** The assembly has exactly the wanted edges, listed in key order. */
  lemma EdgesAreWanted(ms: set<Module>, a: Application, g: Graph, resources: map<string, Resource>)
    requires DependenciesOk(ms) && BuiltFrom(a, ms, g, resources) && ToSet(g.order) == Ids(ms)
    ensures Sorted(a.edges, EdgeLe)
    ensures forall i, j :: 0 <= i < j < |a.edges| ==> KeysInOrder(SortKey(a.edges[i]), SortKey(a.edges[j]))
    ensures forall e :: e in a.edges <==> Wanted(e, ms)
  {
    EdgeLeIsTotalOrder();
    SortSorts(CollectEdges(g, g.order), EdgeLe);
    forall i, j | 0 <= i < j < |a.edges| ensures KeysInOrder(SortKey(a.edges[i]), SortKey(a.edges[j])) {
      EdgeOrderMeans(a.edges[i], a.edges[j]);
    }
    forall e ensures e in a.edges <==> Wanted(e, ms) {
      assert e in a.edges <==> e in multiset(a.edges);
      assert e in CollectEdges(g, g.order) <==> e in multiset(CollectEdges(g, g.order));
      CollectedMembers(g, g.order, e);
      forall m | m in ms
        ensures m.id in g.order && g.modulesById[m.id] == m &&
          (e in EdgesOf(m, g.providers) <==> e.target == m.id && WantedBy(e, m, ms))
      {
        assert m.id in ToSet(g.order);
        ModuleEdgeMembers(m, ms, g.providers, e);
      }
      if id :| id in g.order && e in EdgesOf(g.modulesById[id], g.providers) {
        assert id in ToSet(g.order);
        var m :| m in ms && m.id == id;
      }
    }
  }

  /** The pieces every theorem about a successful assembly starts from. */
  lemma Unpack(ms: seq<Module>, r: Result<Application, AssemblyError>)
      returns (g: Graph, resources: map<string, Resource>)
    requires AssemblyOutcome(ms, r) && r.Ok?
    ensures BuiltFrom(r.value, ToSet(ms), g, resources)
    ensures Topological(g.order, Ids(ToSet(ms)), DependencyEdges(ToSet(ms)))
    ensures r.value.nodes.Keys == Ids(ToSet(ms))
    ensures forall e :: e in r.value.edges <==> Wanted(e, ToSet(ms))
  {
    g, resources :| BuiltFrom(r.value, ToSet(ms), g, resources);
    CompleteIffAcyclic(Ids(ToSet(ms)), DependencyEdges(ToSet(ms)));
    CompleteIsTopological(Ids(ToSet(ms)), DependencyEdges(ToSet(ms)));
    EdgesAreWanted(ToSet(ms), r.value, g, resources);
    assert forall id :: id in g.order <==> id in ToSet(g.order);
  }

  /** Every edge targets a module and starts at a module or at a resource, never at both. */
  lemma EdgeEndpoints(ms: seq<Module>, r: Result<Application, AssemblyError>, e: AssemblyEdge)
    requires AssemblyOutcome(ms, r) && r.Ok? && e in r.value.edges
    ensures e.target in r.value.nodes
    ensures (e.source in r.value.nodes) != (e.source in r.value.resources)
  {
    var g, resources := Unpack(ms, r);
    var all := ToSet(ms);
    var m :| m in all && m.id == e.target && WantedBy(e, m, all);
    assert ModuleResolved(all, m);
    assert e.source !in Collisions(all);
    if e.kind == "interface" {
      NeedResolved(all, m, g.providers, e.via);
    }
  }

  lemma NodeContents(ms: seq<Module>, r: Result<Application, AssemblyError>, id: string) returns (m: Module, g: Graph)
    requires AssemblyOutcome(ms, r) && r.Ok? && id in r.value.nodes
    ensures m in ToSet(ms) && m.id == id && ModuleResolved(ToSet(ms), m)
    ensures Describes(g, ToSet(ms)) && Provided(m, g.providers)
    ensures r.value.nodes[id] == NodeOf(m, g.providers, Ids(ToSet(ms)), r.value.resources.Keys)
  {
    var resources;
    g, resources := Unpack(ms, r);
    m :| m in ToSet(ms) && m.id == id;
    assert id in ToSet(g.order);
  }

  lemma OneModulePerId(ms: seq<Module>, m: Module)
    requires UniqueIds(ms) && m in ToSet(ms)
    ensures forall n :: n in ToSet(ms) && n.id == m.id ==> n == m
  {
    forall n | n in ToSet(ms) && n != m ensures n.id != m.id {
      var i :| 0 <= i < |ms| && ms[i] == m;
      var j :| 0 <= j < |ms| && ms[j] == n;
      if i < j {
        assert OtherId(ms[i], ms[j]);
      } else {
        assert OtherId(ms[j], ms[i]);
      }
    }
  }

  /** Some edge leads from `d` to `id`. */
  ghost predicate Incoming(a: Application, d: string, id: string) {
    exists e :: e in a.edges && e.target == id && e.source == d
  }

  /** What one module draws on: a provider, one of its resources, or an entry of its startAfter list. */
  ghost predicate DrawsOn(m: Module, providers: map<string, string>, d: string)
    requires Provided(m, providers)
  {
    (exists n :: n in m.needs && providers[n] == d) || d in ResourceIds(m) || d in m.startAfter
  }

  lemma DrawnIsWanted(all: set<Module>, m: Module, providers: map<string, string>, d: string) returns (e: AssemblyEdge)
    requires m in all && ModuleResolved(all, m) && ProvidersDescribe(providers, all) && Provided(m, providers)
    requires DrawsOn(m, providers, d)
    ensures WantedBy(e, m, all) && e.target == m.id && e.source == d
  {
    if d in ResourceIds(m) {
      e := AssemblyEdge(d, m.id, "resource", d);
    } else if d in m.startAfter {
      e := AssemblyEdge(d, m.id, "lifecycle", d);
    } else {
      var n :| n in m.needs && providers[n] == d;
      NeedResolved(all, m, providers, n);
      e := AssemblyEdge(d, m.id, "interface", n);
    }
  }

  lemma WantedIsDrawn(all: set<Module>, m: Module, providers: map<string, string>, e: AssemblyEdge)
    requires m in all && ModuleResolved(all, m) && ProvidersDescribe(providers, all) && Provided(m, providers)
    requires WantedBy(e, m, all)
    ensures DrawsOn(m, providers, e.source)
  {
    if e.kind == "interface" {
      NeedResolved(all, m, providers, e.via);
    }
  }

  lemma ProviderIsModule(all: set<Module>, m: Module, providers: map<string, string>, n: string)
    requires m in all && ModuleResolved(all, m) && ProvidersDescribe(providers, all) && Provided(m, providers) &&
      n in m.needs
    ensures providers[n] in Ids(all)
  {
    NeedResolved(all, m, providers, n);
  }

  lemma IncomingIffDrawsOn(all: set<Module>, a: Application, m: Module, providers: map<string, string>, d: string)
    requires m in all && ModuleResolved(all, m) && ProvidersDescribe(providers, all) && Provided(m, providers)
    requires forall n :: n in all && n.id == m.id ==> n == m
    requires forall e :: e in a.edges <==> Wanted(e, all)
    ensures Incoming(a, d, m.id) <==> DrawsOn(m, providers, d)
  {
    if Incoming(a, d, m.id) {
      var e :| e in a.edges && e.target == m.id && e.source == d;
      assert Wanted(e, all);
      WantedIsDrawn(all, m, providers, e);
    }
    if DrawsOn(m, providers, d) {
      var e := DrawnIsWanted(all, m, providers, d);
      assert Wanted(e, all);
    }
  }

  lemma SortedSetMember(s: set<string>, x: string)
    ensures x in SortedSet(s) <==> x in s
  {
    assert x in SortedSet(s) <==> x in ToSet(SortedSet(s));
  }

  lemma ResourceKeys(ms: seq<Module>, r: Result<Application, AssemblyError>, d: string)
    requires AssemblyOutcome(ms, r) && r.Ok?
    ensures d in r.value.resources <==> Requested(ToSet(ms), d)
    ensures d in r.value.resources ==> d !in Ids(ToSet(ms))
    ensures r.value.nodes.Keys == Ids(ToSet(ms))
  {
    var g, resources := Unpack(ms, r);
    assert d !in Collisions(ToSet(ms));
  }

  lemma DependenciesAreDrawnOn(all: set<Module>, m: Module, providers: map<string, string>, resourceIds: set<string>,
      d: string)
    requires m in all && ModuleResolved(all, m) && ProvidersDescribe(providers, all) && Provided(m, providers)
    requires d in ResourceIds(m) ==> d in resourceIds
    requires d in resourceIds ==> d !in Ids(all)
    ensures d in ModuleDeps(m, providers, Ids(all)) <==> d in Ids(all) && DrawsOn(m, providers, d)
    ensures d in ResourceDeps(m, Ids(all), resourceIds) <==> d in resourceIds && DrawsOn(m, providers, d)
  {
    forall n | n in m.needs ensures providers[n] in Ids(all) {
      ProviderIsModule(all, m, providers, n);
    }
  }

  /** A node depends on exactly the sources of its incoming edges, split into modules and resources. */
  lemma DependenciesAreEdgeSources(ms: seq<Module>, r: Result<Application, AssemblyError>, id: string, d: string)
    requires AssemblyOutcome(ms, r) && r.Ok? && id in r.value.nodes
    ensures d in r.value.nodes[id].dependsOnModules <==> d in r.value.nodes && Incoming(r.value, d, id)
    ensures d in r.value.nodes[id].dependsOnResources <==> d in r.value.resources && Incoming(r.value, d, id)
  {
    var all, resourceIds := ToSet(ms), r.value.resources.Keys;
    var m, g := NodeContents(ms, r, id);
    var _, _ := Unpack(ms, r);
    SortedSetMember(ModuleDeps(m, g.providers, Ids(all)), d);
    SortedSetMember(ResourceDeps(m, Ids(all), resourceIds), d);
    ResourceKeys(ms, r, d);
    assert d in ResourceIds(m) ==> Requested(all, d);
    OneModulePerId(ms, m);
    IncomingIffDrawsOn(all, r.value, m, g.providers, d);
    DependenciesAreDrawnOn(all, m, g.providers, resourceIds, d);
  }

  /** The place of an id in a list. */
  ghost predicate At(order: seq<string>, i: int, id: string) {
    0 <= i < |order| && order[i] == id
  }

  lemma StartupIsTopological(ms: seq<Module>, r: Result<Application, AssemblyError>)
    requires AssemblyOutcome(ms, r) && r.Ok?
    ensures Topological(r.value.startupOrder, r.value.nodes.Keys, DependencyEdges(ToSet(ms)))
    ensures r.value.nodes.Keys == Ids(ToSet(ms))
    ensures r.value.buildOrder == r.value.startupOrder && r.value.shutdownOrder == Reverse(r.value.startupOrder)
  {
    var g, resources := Unpack(ms, r);
  }

  lemma DependencyWaits(all: set<Module>, m: Module, providers: map<string, string>, d: string)
    requires m in all && ModuleResolved(all, m) && ProvidersDescribe(providers, all) && Provided(m, providers)
    requires d in ModuleDeps(m, providers, Ids(all)) && d != m.id
    ensures WaitsFor(all, m, d) <==> d != "" || d in m.startAfter
    ensures d in Ids(all)
  {
    if n :| n in m.needs && providers[n] == d {
      NeedResolved(all, m, providers, n);
    }
  }

  /** A dependency orders the startup exactly when its id passes the truth test or is listed in startAfter. */
  lemma DependencyIsEdge(ms: seq<Module>, r: Result<Application, AssemblyError>, id: string, d: string)
    requires AssemblyOutcome(ms, r) && r.Ok? && id in r.value.nodes && d in r.value.nodes[id].dependsOnModules
    requires d != id
    ensures (d, id) in DependencyEdges(ToSet(ms)) <==> d != "" || d in r.value.nodes[id].definition.startAfter
  {
    var all := ToSet(ms);
    var m, g := NodeContents(ms, r, id);
    ResourceKeys(ms, r, d);
    SortedSetMember(ModuleDeps(m, g.providers, Ids(all)), d);
    OneModulePerId(ms, m);
    assert WaitsFor(all, m, d) <==> Precedes(all, d, id);
    DependencyWaits(all, m, g.providers, d);
  }

  lemma EdgePositions(order: seq<string>, nodes: set<string>, edges: Edges, d: string, id: string, i: int, j: int)
    requires Topological(order, nodes, edges) && (d, id) in edges
    ensures At(order, i, d) && At(order, j, id) ==> i < j
    ensures At(Reverse(order), i, d) && At(Reverse(order), j, id) ==> j < i
  {
    if At(Reverse(order), i, d) && At(Reverse(order), j, id) {
      assert order[|order| - 1 - i] == d && order[|order| - 1 - j] == id;
    }
  }

  /**
    A module starts after another module it depends on if and only if that module's id is not empty, or everything
    the module with the empty id waits for starts before the dependent does.
   */
  lemma StartupFollowsDependencies(ms: seq<Module>, r: Result<Application, AssemblyError>, id: string, d: string,
      i: nat, j: nat)
    requires AssemblyOutcome(ms, r) && r.Ok? && id in r.value.nodes && d in r.value.nodes[id].dependsOnModules
    requires d != id && At(r.value.startupOrder, i, d) && At(r.value.startupOrder, j, id)
    ensures i < j <==> d != "" || PredecessorsBefore(r.value.startupOrder, DependencyEdges(ToSet(ms)), "", j)
  {
    var order, nodes, edges := r.value.startupOrder, Ids(ToSet(ms)), DependencyEdges(ToSet(ms));
    assert order == Order(nodes, edges) && Topological(order, nodes, edges) && Within(nodes, edges) by {
      StartupIsTopological(ms, r);
      StartupIsOrder(ms, r);
    }
    assert d != "" ==> (d, id) in edges by {
      DependencyIsEdge(ms, r, id, d);
    }
    DependencyPlace(order, nodes, edges, d, id, i, j);
  }

  /** The place in the shutdown order is the mirror image of the place in the startup order. */
  lemma StopsInReverse(ms: seq<Module>, r: Result<Application, AssemblyError>, i: int, d: string)
    requires AssemblyOutcome(ms, r) && r.Ok?
    ensures At(r.value.startupOrder, i, d) <==> At(r.value.shutdownOrder, |r.value.startupOrder| - 1 - i, d)
  {
    StartupIsTopological(ms, r);
  }

  lemma DependencyPlace(order: seq<string>, nodes: set<string>, edges: Edges, d: string, id: string, i: nat, j: nat)
    requires Within(nodes, edges) && order == Order(nodes, edges) && Topological(order, nodes, edges)
    requires d != id && (d != "" ==> (d, id) in edges)
    requires At(order, i, d) && At(order, j, id)
    ensures i < j <==> d != "" || PredecessorsBefore(order, edges, "", j)
  {
    if d != "" {
      EdgePositions(order, nodes, edges, d, id, i, j);
    } else {
      EmptyIdPlace(nodes, edges, i, j);
    }
  }

  lemma StartupIsOrder(ms: seq<Module>, r: Result<Application, AssemblyError>)
    requires AssemblyOutcome(ms, r) && r.Ok?
    ensures r.value.startupOrder == Order(Ids(ToSet(ms)), DependencyEdges(ToSet(ms)))
  {
    var g, resources := Unpack(ms, r);
  }

  lemma ReverseComplete(s: seq<string>)
    requires Distinct(s)
    ensures Distinct(Reverse(s)) && ToSet(Reverse(s)) == ToSet(s)
  {
    forall x ensures x in Reverse(s) <==> x in s {
      if i :| 0 <= i < |s| && s[i] == x {
        assert Reverse(s)[|s| - 1 - i] == x;
      }
    }
  }

  /** Startup and shutdown list every module exactly once. */
  lemma OrdersAreComplete(ms: seq<Module>, r: Result<Application, AssemblyError>)
    requires AssemblyOutcome(ms, r) && r.Ok?
    ensures Distinct(r.value.startupOrder) && ToSet(r.value.startupOrder) == r.value.nodes.Keys
    ensures Distinct(r.value.shutdownOrder) && ToSet(r.value.shutdownOrder) == r.value.nodes.Keys
    ensures r.value.buildOrder == r.value.startupOrder
  {
    StartupIsTopological(ms, r);
    ReverseComplete(r.value.startupOrder);
  }

  // ---------------------------------------------------------------- the empty id

  function Simple(id: string, offer: string, need: string): Module {
    Module(id, "1.0.0", "service", "kit", "src-" + id, [ProvidedInterface(offer, "http", None, None)], [need], [], [])
  }

  /** Two modules that require one another; the one whose id is empty is not waited for. */
  function MutualPair(): seq<Module> {
    [Simple("", "x", "y"), Simple("a", "y", "x")]
  }

  lemma MutualPairEdges()
    ensures ToSet(MutualPair()) == {Simple("", "x", "y"), Simple("a", "y", "x")}
    ensures DependencyEdges(ToSet(MutualPair())) == {("a", "")}
  {
    var p, q := Simple("", "x", "y"), Simple("a", "y", "x");
    var all := ToSet(MutualPair());
    assert all == {p, q} && Ids(all) == {"", "a"};
    assert ProvidedIds(p) == ["x"] && ProvidedIds(q) == ["y"];
    assert Provides(all, "a", "y") && p.needs == ["y"];
    assert "y" in p.needs;
    assert WaitsFor(all, p, "a");
    assert Precedes(all, "a", "");
    forall m | m in all && m.id == "a" ensures !WaitsFor(all, m, "") {
    }
  }

  lemma PairOfTwo<T>(a: T, b: T, ok: (T, T) -> bool)
    requires ok(a, b)
    ensures Pairwise([a, b], ok)
  {
  }

  lemma MutualPairSources()
    ensures UniqueSources(MutualPair())
  {
    var p, q := Simple("", "x", "y"), Simple("a", "y", "x");
    assert p.source == "src-" && q.source == "src-a";
    assert |"src-"| != |"src-a"|;
    PosixPath.PlainName(p.source);
    PosixPath.PlainName(q.source);
    PairOfTwo(p, q, OtherSource);
  }

  lemma MutualPairDependencies()
    ensures DependenciesOk(ToSet(MutualPair()))
  {
    var p, q := Simple("", "x", "y"), Simple("a", "y", "x");
    var all := ToSet(MutualPair());
    MutualPairEdges();
    assert p in all && q in all;
    assert ProvidedIds(p) == ["x"] && ProvidedIds(q) == ["y"];
    assert Provides(all, "", "x") && Provides(all, "a", "y");
    assert ModuleResolved(all, p) && ModuleResolved(all, q);
  }

  lemma MutualPairStructure()
    ensures StructureOk(MutualPair()) && DependenciesOk(ToSet(MutualPair()))
  {
    MutualPairSources();
    MutualPairDependencies();
    var p, q := Simple("", "x", "y"), Simple("a", "y", "x");
    assert ProvidedIds(p) == ["x"] && ProvidedIds(q) == ["y"];
    PairOfTwo(p, q, OtherId);
    PairOfTwo(p, q, NoSharedInterface);
    assert ResourceIds(p) == [] && ResourceIds(q) == [];
  }

  lemma OneEdgeAcyclic(edges: Edges, a: string, b: string)
    requires edges == {(a, b)} && a != b
    ensures Acyclic(edges)
  {
    forall c ensures !IsCycle(c, edges) {
      if IsPath(c, edges) && |c| >= 2 {
        assert Step(c, edges, 0) && Step(c, edges, |c| - 2);
      }
    }
  }

  /** "a" depends on the module with the empty id, yet every accepted assembly starts "a" first. */
  lemma EmptyIdStartsTooLate(r: Result<Application, AssemblyError>, i: int, j: int)
    requires AssemblyOutcome(MutualPair(), r)
    ensures r.Ok? && "a" in r.value.nodes && "" in r.value.nodes["a"].dependsOnModules
    ensures At(r.value.startupOrder, i, "a") && At(r.value.startupOrder, j, "") ==> i < j
  {
    MutualPairAccepted();
    MutualPairEdges();
    EmptyIdDependency(r);
    StartupIsTopological(MutualPair(), r);
    EdgePositions(r.value.startupOrder, r.value.nodes.Keys, DependencyEdges(ToSet(MutualPair())), "a", "", i, j);
  }

  lemma MutualPairAccepted()
    ensures var all := ToSet(MutualPair());
      GraphAccepted(MutualPair()) && ResourcesAgree(all) && Collisions(all) == {}
  {
    var all := ToSet(MutualPair());
    MutualPairStructure();
    MutualPairEdges();
    OneEdgeAcyclic(DependencyEdges(all), "a", "");
    assert forall m :: m in all ==> m.resources == [] && ResourceIds(m) == [];
  }

  lemma MutualPairProviders(providers: map<string, string>)
    requires ProvidersDescribe(providers, ToSet(MutualPair()))
    ensures "x" in providers && providers["x"] == ""
  {
    var p := Simple("", "x", "y");
    MutualPairEdges();
    assert p in ToSet(MutualPair()) && ProvidedIds(p) == ["x"];
  }

  lemma EmptyIdDependency(r: Result<Application, AssemblyError>)
    requires AssemblyOutcome(MutualPair(), r) && r.Ok?
    ensures "a" in r.value.nodes && "" in r.value.nodes["a"].dependsOnModules
  {
    MutualPairEdges();
    ResourceKeys(MutualPair(), r, "");
    assert Simple("a", "y", "x") in ToSet(MutualPair());
    var m, g := NodeContents(MutualPair(), r, "a");
    MutualPairProviders(g.providers);
    assert m.needs == ["x"] && "x" in m.needs;
    SortedSetMember(ModuleDeps(m, g.providers, Ids(ToSet(MutualPair()))), "");
  }
}

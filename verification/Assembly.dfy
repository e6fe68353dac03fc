/** `assemble_application`: nodes, resources and edges around a validated module graph. */
module Assembly {
  import opened Collections
  import opened Sorting
  import opened ModuleModel

  datatype AssemblyEdge = AssemblyEdge(source: string, target: string, kind: string, via: string)

  datatype Resource = Resource(id: string, kind: string, scope: string, requestedBy: seq<string>)

  datatype Node = Node(
    id: string, definition: Module, offers: seq<string>, needs: seq<string>, resources: seq<string>,
    dependsOnModules: seq<string>, dependsOnResources: seq<string>)

  datatype Application = Application(
    nodes: map<string, Node>, providers: map<string, string>, resources: map<string, Resource>,
    edges: seq<AssemblyEdge>, buildOrder: seq<string>, startupOrder: seq<string>, shutdownOrder: seq<string>)

  datatype AssemblyError =
    | InvalidGraph(cause: GraphError)
    | ConflictingResource(id: string)
    | ResourceIdCollision(ids: seq<string>)
  {
    function Class(): ErrorClass {
      if InvalidGraph? then cause.Class() else ValidationError
    }
  }

  // ---------------------------------------------------------------- the edge order

  predicate PairLe(a: string, b: string, tied: bool) {
    StrLess(a, b) || (a == b && tied)
  }

  /** The sort key of an edge is (target, kind, source, via). */
  predicate EdgeLe(a: AssemblyEdge, b: AssemblyEdge) {
    PairLe(a.target, b.target, PairLe(a.kind, b.kind, PairLe(a.source, b.source, StrLe(a.via, b.via))))
  }

  ghost function SortKey(e: AssemblyEdge): seq<string> {
    [e.target, e.kind, e.source, e.via]
  }

  lemma EdgeOrderMeans(a: AssemblyEdge, b: AssemblyEdge)
    ensures EdgeLe(a, b) <==> KeysInOrder(SortKey(a), SortKey(b))
  {
    var s, t := SortKey(a), SortKey(b);
    forall k: nat | k < 4 ensures StrLess(s[k], t[k]) <==> ByCodePoint(s[k], t[k]) {
      StrLessMeans(s[k], t[k]);
    }
    assert s[0] == a.target && s[1] == a.kind && s[2] == a.source && s[3] == a.via;
    assert t[0] == b.target && t[1] == b.kind && t[2] == b.source && t[3] == b.via;
    var k := if s[0] != t[0] then 0 else if s[1] != t[1] then 1 else if s[2] != t[2] then 2 else 3;
    assert forall i: nat :: SmallerAt(s, t, i) ==> i == k;
    assert SmallerAt(s, t, k) <==> ByCodePoint(s[k], t[k]);
  }

  lemma EdgeLeIsTotalOrder()
    ensures Total(EdgeLe) && Antisymmetric(EdgeLe)
  {
    StrLeIsTotalOrder();
    forall a, b ensures EdgeLe(a, b) || EdgeLe(b, a) {
      StrTrichotomy(a.target, b.target);
      StrTrichotomy(a.kind, b.kind);
      StrTrichotomy(a.source, b.source);
      StrTrichotomy(a.via, b.via);
    }
    forall a, b, c | EdgeLe(a, b) && EdgeLe(b, c) ensures EdgeLe(a, c) {
      LessChain(a.target, b.target, c.target);
      LessChain(a.kind, b.kind, c.kind);
      LessChain(a.source, b.source, c.source);
      LessChain(a.via, b.via, c.via);
    }
    forall a, b | EdgeLe(a, b) && EdgeLe(b, a) ensures a == b {
      LessChain(a.target, b.target, a.target);
      LessChain(a.kind, b.kind, a.kind);
      LessChain(a.source, b.source, a.source);
      LessChain(a.via, b.via, a.via);
    }
  }

  // ---------------------------------------------------------------- resources

  predicate Agrees(q: ResourceRequest, p: ResourceRequest) {
    q.kind == p.kind && q.scope == p.scope
  }

  /** Some module of `ms` makes the request `q`. */
  ghost predicate Backed(q: ResourceRequest, ms: set<Module>) {
    exists m :: m in ms && q in m.resources
  }

  /** All requests for one resource id agree on its type and scope. */
  ghost predicate ResourcesAgree(ms: set<Module>) {
    forall q, p :: Backed(q, ms) && Backed(p, ms) && q.id == p.id ==> Agrees(q, p)
  }

  ghost function Requesters(ms: set<Module>, resource: string): set<string> {
    set m | m in ms && resource in ResourceIds(m) :: m.id
  }

  ghost predicate ResourcesDescribe(table: map<string, Resource>, ms: set<Module>) {
    && (forall x :: x in table <==> Requested(ms, x))
    && (forall x :: x in table ==> table[x].id == x && table[x].requestedBy == SortedSet(Requesters(ms, x)))
    && (forall q :: Backed(q, ms) ==> q.id in table && table[q.id].kind == q.kind && table[q.id].scope == q.scope)
  }

  type RequestTable = map<string, ResourceRequest>
  type RequestedBy = map<string, seq<string>>

  /** The inner loop of `_collect_resources`: the requests of one module. */
  method AddRequests(m: Module, resources0: RequestTable, requestedBy0: RequestedBy)
    returns (conflict: Option<string>, resources: RequestTable, requestedBy: RequestedBy)
    requires Distinct(ResourceIds(m)) && resources0.Keys == requestedBy0.Keys
    requires forall x :: x in resources0 ==> resources0[x].id == x
    ensures conflict.None? <==> forall q :: q in m.resources && q.id in resources0 ==> Agrees(q, resources0[q.id])
    ensures conflict.Some? ==>
      exists q :: q in m.resources && q.id == conflict.value && q.id in resources0 && !Agrees(q, resources0[q.id])
    ensures conflict.None? ==> resources.Keys == requestedBy.Keys == resources0.Keys + ToSet(ResourceIds(m))
    ensures conflict.None? ==> forall q :: q in m.resources ==> resources[q.id] == q
    ensures conflict.None? ==> forall x :: x in resources ==> resources[x].id == x
    ensures conflict.None? ==> forall x :: x in resources0 ==> Agrees(resources[x], resources0[x])
    ensures conflict.None? ==> forall x :: x in resources && x !in ResourceIds(m) ==> resources[x] == resources0[x]
    ensures conflict.None? ==> forall x :: x in requestedBy ==>
      requestedBy[x] == Extended(requestedBy0, x, ToSet(ResourceIds(m)), m.id)
  {
    conflict, resources, requestedBy := None, resources0, requestedBy0;
    for j := 0 to |m.resources|
      invariant Added(m.id, m.resources[..j], resources0, requestedBy0, resources, requestedBy)
      invariant Compatible(m.resources[..j], resources0)
    {
      var q := m.resources[j];
      NewName(m, j);
      if q.id in resources && !Agrees(resources[q.id], q) {
        assert q in m.resources;
        return Some(q.id), resources, requestedBy;
      }
      AddOne(m.id, m.resources[..j], q, resources0, requestedBy0, resources, requestedBy);
      resources := resources[q.id := q];
      requestedBy := requestedBy[q.id := (if q.id in requestedBy then requestedBy[q.id] else []) + [m.id]];
    }
    assert m.resources[..|m.resources|] == m.resources;
    AllNames(m);
  }

  ghost predicate Compatible(requests: seq<ResourceRequest>, resources: RequestTable) {
    forall q :: q in requests && q.id in resources ==> Agrees(q, resources[q.id])
  }

  /** The tables after the requests `done` of the module `id`. */
  ghost predicate Added(id: string, done: seq<ResourceRequest>, resources0: RequestTable, requestedBy0: RequestedBy,
      resources: RequestTable, requestedBy: RequestedBy) {
    && resources.Keys == requestedBy.Keys == resources0.Keys + Names(done)
    && (forall q :: q in done ==> q.id in resources && resources[q.id] == q)
    && (forall x :: x in resources && x !in Names(done) ==> x in resources0 && resources[x] == resources0[x])
    && (forall x :: x in requestedBy ==> requestedBy[x] == Extended(requestedBy0, x, Names(done), id))
  }

  lemma AddOne(id: string, done: seq<ResourceRequest>, q: ResourceRequest, resources0: RequestTable,
      requestedBy0: RequestedBy, resources: RequestTable, requestedBy: RequestedBy)
    requires resources0.Keys == requestedBy0.Keys && q.id !in Names(done)
    requires Added(id, done, resources0, requestedBy0, resources, requestedBy)
    ensures q.id in resources <==> q.id in resources0
    ensures q.id in resources ==> resources[q.id] == resources0[q.id]
    ensures Added(id, done + [q], resources0, requestedBy0, resources[q.id := q],
                  requestedBy[q.id := (if q.id in requestedBy then requestedBy[q.id] else []) + [id]])
  {
    var before, after := Names(done), Names(done + [q]);
    assert after == before + {q.id};
    AddRequester(id, before, q.id, requestedBy0, requestedBy);
    forall p | p in done + [q] ensures p.id in resources[q.id := q] && resources[q.id := q][p.id] == p {
      assert p in done || p == q;
      assert p in done ==> p.id in before;
    }
  }

  lemma AddRequester(id: string, names: set<string>, x: string, requestedBy0: RequestedBy, requestedBy: RequestedBy)
    requires x !in names && requestedBy.Keys == requestedBy0.Keys + names
    requires forall y :: y in requestedBy ==> requestedBy[y] == Extended(requestedBy0, y, names, id)
    ensures var grown := requestedBy[x := (if x in requestedBy then requestedBy[x] else []) + [id]];
      grown.Keys == requestedBy.Keys + {x} && forall y :: y in grown ==>
        grown[y] == Extended(requestedBy0, y, names + {x}, id)
  {
  }

  /** The ids of some requests. */
  ghost function Names(requests: seq<ResourceRequest>): set<string> {
    set q | q in requests :: q.id
  }

  ghost function Extended(requestedBy: RequestedBy, x: string, names: set<string>, id: string): seq<string> {
    (if x in requestedBy then requestedBy[x] else []) + (if x in names then [id] else [])
  }

  lemma NewName(m: Module, j: nat)
    requires Distinct(ResourceIds(m)) && j < |m.resources|
    ensures m.resources[..j + 1] == m.resources[..j] + [m.resources[j]]
    ensures Names(m.resources[..j + 1]) == Names(m.resources[..j]) + {m.resources[j].id}
    ensures m.resources[j].id !in Names(m.resources[..j])
  {
    var done := m.resources[..j];
    assert m.resources[..j + 1] == done + [m.resources[j]];
    forall q | q in done ensures q.id != m.resources[j].id {
      var k :| 0 <= k < j && m.resources[k] == q;
      assert ResourceIds(m)[k] != ResourceIds(m)[j];
    }
  }

  lemma AllNames(m: Module)
    ensures Names(m.resources) == ToSet(ResourceIds(m))
    ensures forall x :: x in ResourceIds(m) <==> x in Names(m.resources)
  {
    forall x ensures x in Names(m.resources) <==> x in ToSet(ResourceIds(m)) {
      RequestedIffRequest(m, x);
    }
  }

  /** Every stored request was made by one of the modules seen. */
  ghost predicate AllBacked(resources: RequestTable, done: set<Module>) {
    forall x {:trigger Backed(resources[x], done)} :: x in resources ==> Backed(resources[x], done)
  }

  /** The tables after the modules of `done`. */
  ghost predicate Collected(resources: RequestTable, requestedBy: RequestedBy, done: set<Module>) {
    && resources.Keys == requestedBy.Keys
    && (forall x :: x in resources <==> Requested(done, x))
    && (forall x :: x in resources ==> resources[x].id == x)
    && AllBacked(resources, done)
    && (forall q :: Backed(q, done) ==> q.id in resources && Agrees(q, resources[q.id]))
    && (forall x :: x in requestedBy ==> Distinct(requestedBy[x]) && ToSet(requestedBy[x]) == Requesters(done, x))
  }

  lemma RequestedIffRequest(m: Module, x: string)
    ensures x in ResourceIds(m) <==> exists q :: q in m.resources && q.id == x
  {
    if x in ResourceIds(m) {
      var i :| 0 <= i < |ResourceIds(m)| && ResourceIds(m)[i] == x;
      assert m.resources[i] in m.resources;
    }
    if q :| q in m.resources && q.id == x {
      var i :| 0 <= i < |m.resources| && m.resources[i] == q;
      assert ResourceIds(m)[i] == x;
    }
  }

  lemma RequestedExtends(done: set<Module>, m: Module, x: string)
    ensures Requested(done + {m}, x) <==> Requested(done, x) || x in ResourceIds(m)
  {
    if n :| n in done && x in ResourceIds(n) {
      assert n in done + {m};
    }
    assert m in done + {m};
  }

  lemma BackedExtends(done: set<Module>, m: Module, q: ResourceRequest)
    ensures Backed(q, done + {m}) <==> Backed(q, done) || q in m.resources
  {
    if n :| n in done && q in n.resources {
      assert n in done + {m};
    }
    assert m in done + {m};
  }

  lemma ResourcesExtend(resources: RequestTable, done: set<Module>, m: Module, resources': RequestTable)
    requires forall x :: x in resources <==> Requested(done, x)
    requires AllBacked(resources, done)
    requires forall q :: Backed(q, done) ==> q.id in resources && Agrees(q, resources[q.id])
    requires resources'.Keys == resources.Keys + ToSet(ResourceIds(m))
    requires forall q :: q in m.resources ==> resources'[q.id] == q
    requires forall x :: x in resources ==> Agrees(resources'[x], resources[x])
    requires forall x :: x in resources' && x !in ResourceIds(m) ==> resources'[x] == resources[x]
    ensures forall x :: x in resources' <==> Requested(done + {m}, x)
    ensures AllBacked(resources', done + {m})
    ensures forall q :: Backed(q, done + {m}) ==> q.id in resources' && Agrees(q, resources'[q.id])
  {
    var more := done + {m};
    forall x ensures x in resources' <==> Requested(more, x) {
      RequestedExtends(done, m, x);
      assert x in ToSet(ResourceIds(m)) <==> x in ResourceIds(m);
    }
    forall x | x in resources' ensures Backed(resources'[x], more) {
      if x in ResourceIds(m) {
        RequestedIffRequest(m, x);
        BackedExtends(done, m, resources'[x]);
      } else {
        BackedExtends(done, m, resources[x]);
      }
    }
    forall q | Backed(q, more) ensures q.id in resources' && Agrees(q, resources'[q.id]) {
      BackedExtends(done, m, q);
      if q in m.resources {
        RequestedIffRequest(m, q.id);
        assert q.id in ToSet(ResourceIds(m));
      }
    }
  }

  lemma RequestersListed(requestedBy: RequestedBy, done: set<Module>, m: Module, requestedBy': RequestedBy, x: string)
    requires m.id !in Ids(done)
    requires x in requestedBy ==> Distinct(requestedBy[x]) && ToSet(requestedBy[x]) == Requesters(done, x)
    requires x !in requestedBy ==> !Requested(done, x)
    requires x in requestedBy'
    requires requestedBy'[x] ==
      (if x in requestedBy then requestedBy[x] else []) + (if x in ResourceIds(m) then [m.id] else [])
    ensures Distinct(requestedBy'[x]) && ToSet(requestedBy'[x]) == Requesters(done + {m}, x)
  {
    RequestersExtend(done, m, x);
    var before := if x in requestedBy then requestedBy[x] else [];
    assert ToSet(before) == Requesters(done, x);
    assert m.id !in ToSet(before);
  }

  lemma CollectedExtends(resources: RequestTable, requestedBy: RequestedBy, done: set<Module>, m: Module,
      resources': RequestTable, requestedBy': RequestedBy)
    requires Collected(resources, requestedBy, done)
    requires m.id !in Ids(done)
    requires resources'.Keys == requestedBy'.Keys == resources.Keys + ToSet(ResourceIds(m))
    requires forall q :: q in m.resources ==> resources'[q.id] == q
    requires forall x :: x in resources' ==> resources'[x].id == x
    requires forall x :: x in resources ==> Agrees(resources'[x], resources[x])
    requires forall x :: x in resources' && x !in ResourceIds(m) ==> resources'[x] == resources[x]
    requires forall x :: x in requestedBy' ==> requestedBy'[x] == Extended(requestedBy, x, ToSet(ResourceIds(m)), m.id)
    ensures Collected(resources', requestedBy', done + {m})
  {
    ResourcesExtend(resources, done, m, resources');
    forall x | x in requestedBy'
      ensures Distinct(requestedBy'[x]) && ToSet(requestedBy'[x]) == Requesters(done + {m}, x)
    {
      assert x in resources <==> x in requestedBy;
      RequestersListed(requestedBy, done, m, requestedBy', x);
    }
  }

  lemma RequestersExtend(done: set<Module>, m: Module, x: string)
    ensures Requesters(done + {m}, x) == Requesters(done, x) + if x in ResourceIds(m) then {m.id} else {}
    ensures Requesters(done, x) <= Ids(done)
  {
  }

  /** A clash with what is already collected breaks the agreement; without one it persists. */
  lemma AgreementExtends(resources: RequestTable, requestedBy: RequestedBy, done: set<Module>, m: Module)
    requires Collected(resources, requestedBy, done) && ResourcesAgree(done) && Distinct(ResourceIds(m))
    ensures ResourcesAgree(done + {m}) <==> forall q :: q in m.resources && q.id in resources ==>
      Agrees(q, resources[q.id])
  {
    var more := done + {m};
    if ResourcesAgree(more) {
      forall q | q in m.resources && q.id in resources ensures Agrees(q, resources[q.id]) {
        assert Backed(resources[q.id], done);
        BackedExtends(done, m, resources[q.id]);
        BackedExtends(done, m, q);
      }
    } else {
      var q, p :| Backed(q, more) && Backed(p, more) && q.id == p.id && !Agrees(q, p);
      SameIdSameRequest(m);
      BackedExtends(done, m, q);
      BackedExtends(done, m, p);
    }
  }

  lemma SameIdSameRequest(m: Module)
    requires Distinct(ResourceIds(m))
    ensures forall q, p :: q in m.resources && p in m.resources && q.id == p.id ==> q == p
  {
    forall q, p | q in m.resources && p in m.resources && q.id == p.id ensures q == p {
      var i :| 0 <= i < |m.resources| && m.resources[i] == q;
      var j :| 0 <= j < |m.resources| && m.resources[j] == p;
      assert ResourceIds(m)[i] == ResourceIds(m)[j];
    }
  }

  lemma AgreementMonotone(part: set<Module>, whole: set<Module>)
    requires part <= whole && ResourcesAgree(whole)
    ensures ResourcesAgree(part)
  {
    forall q | Backed(q, part) ensures Backed(q, whole) {
      var m :| m in part && q in m.resources;
      assert m in whole;
    }
  }

  /** `_collect_resources` on modules that passed validation. */
  method CollectResources(ms: seq<Module>) returns (r: Result<map<string, Resource>, AssemblyError>)
    requires UniqueIds(ms) && UniqueRequests(ms)
    ensures r.Ok? <==> ResourcesAgree(ToSet(ms))
    ensures r.Ok? ==> ResourcesDescribe(r.value, ToSet(ms))
    ensures r.Err? ==> r.error.ConflictingResource? && Requested(ToSet(ms), r.error.id)
  {
    var resources: RequestTable := map[];
    var requestedBy: RequestedBy := map[];
    for i := 0 to |ms|
      invariant Collected(resources, requestedBy, ToSet(ms[..i])) && ResourcesAgree(ToSet(ms[..i]))
    {
      ghost var done := ToSet(ms[..i]);
      assert ToSet(ms[..i + 1]) == done + {ms[i]};
      assert ms[i] in ms && done + {ms[i]} <= ToSet(ms);
      ghost var resources0, requestedBy0 := resources, requestedBy;
      AgreementExtends(resources, requestedBy, done, ms[i]);
      var conflict;
      conflict, resources, requestedBy := AddRequests(ms[i], resources, requestedBy);
      if conflict.Some? {
        RequestedIffRequest(ms[i], conflict.value);
        if ResourcesAgree(ToSet(ms)) {
          AgreementMonotone(done + {ms[i]}, ToSet(ms));
        }
        return Err(ConflictingResource(conflict.value));
      }
      FreshId(ms, i);
      CollectedExtends(resources0, requestedBy0, done, ms[i], resources, requestedBy);
    }
    assert ms[..|ms|] == ms;
    FinishResources(resources, requestedBy, ToSet(ms));
    r := Ok(map x | x in resources ::
      Resource(resources[x].id, resources[x].kind, resources[x].scope, Sort(requestedBy[x], StrLe)));
  }

  lemma FreshId(ms: seq<Module>, i: nat)
    requires UniqueIds(ms) && i < |ms|
    ensures ms[i].id !in Ids(ToSet(ms[..i]))
  {
    forall m | m in ToSet(ms[..i]) ensures m.id != ms[i].id {
      var k :| 0 <= k < i && ms[k] == m;
      assert OtherId(ms[k], ms[i]);
    }
  }

  lemma FinishResources(resources: RequestTable, requestedBy: RequestedBy, ms: set<Module>)
    requires Collected(resources, requestedBy, ms)
    ensures forall x :: x in requestedBy ==> Sort(requestedBy[x], StrLe) == SortedSet(Requesters(ms, x))
  {
    forall x | x in requestedBy ensures Sort(requestedBy[x], StrLe) == SortedSet(Requesters(ms, x)) {
      SortListsSet(requestedBy[x], Requesters(ms, x));
    }
  }

  // ---------------------------------------------------------------- nodes and edges

  predicate Provided(m: Module, providers: map<string, string>) {
    forall n :: n in m.needs ==> n in providers
  }

  function InterfaceEdges(m: Module, providers: map<string, string>): (r: seq<AssemblyEdge>)
    requires Provided(m, providers)
  {
    seq(|m.needs|, i requires 0 <= i < |m.needs| => AssemblyEdge(providers[m.needs[i]], m.id, "interface", m.needs[i]))
  }

  function ResourceEdges(m: Module): seq<AssemblyEdge> {
    seq(|m.resources|,
      i requires 0 <= i < |m.resources| => AssemblyEdge(m.resources[i].id, m.id, "resource", m.resources[i].id))
  }

  function LifecycleEdges(m: Module): seq<AssemblyEdge> {
    seq(|m.startAfter|,
      i requires 0 <= i < |m.startAfter| => AssemblyEdge(m.startAfter[i], m.id, "lifecycle", m.startAfter[i]))
  }

  function EdgesOf(m: Module, providers: map<string, string>): seq<AssemblyEdge>
    requires Provided(m, providers)
  {
    InterfaceEdges(m, providers) + ResourceEdges(m) + LifecycleEdges(m)
  }

  ghost function ModuleDeps(m: Module, providers: map<string, string>, ids: set<string>): set<string>
    requires Provided(m, providers)
  {
    (set n | n in m.needs :: providers[n]) + (set d | d in m.startAfter && d in ids)
  }

  ghost function ResourceDeps(m: Module, ids: set<string>, resourceIds: set<string>): set<string> {
    ToSet(ResourceIds(m)) + (set d | d in m.startAfter && d !in ids && d in resourceIds)
  }

  ghost function NodeOf(m: Module, providers: map<string, string>, ids: set<string>, resourceIds: set<string>): Node
    requires Provided(m, providers)
  {
    Node(m.id, m, ProvidedIds(m), m.needs, ResourceIds(m),
         SortedSet(ModuleDeps(m, providers, ids)), SortedSet(ResourceDeps(m, ids, resourceIds)))
  }

  /** The loop over the required interfaces of a module. */
  method AssembleInterfaces(m: Module, providers: map<string, string>)
      returns (deps: set<string>, edges: seq<AssemblyEdge>)
    requires Provided(m, providers)
    ensures deps == set n | n in m.needs :: providers[n]
    ensures edges == InterfaceEdges(m, providers)
  {
    deps, edges := {}, [];
    for i := 0 to |m.needs|
      invariant deps == set n | n in m.needs[..i] :: providers[n]
      invariant edges == InterfaceEdges(m, providers)[..i]
    {
      var need := m.needs[i];
      assert m.needs[..i + 1] == m.needs[..i] + [need];
      deps := deps + {providers[need]};
      edges := edges + [AssemblyEdge(providers[need], m.id, "interface", need)];
    }
    assert m.needs[..|m.needs|] == m.needs;
  }

  /** The loop over the resource requests of a module. */
  method AssembleRequests(m: Module) returns (deps: set<string>, edges: seq<AssemblyEdge>)
    ensures deps == ToSet(ResourceIds(m))
    ensures edges == ResourceEdges(m)
  {
    deps, edges := {}, [];
    for i := 0 to |m.resources|
      invariant deps == ToSet(ResourceIds(m)[..i])
      invariant edges == ResourceEdges(m)[..i]
    {
      var resource := m.resources[i].id;
      assert ResourceIds(m)[..i + 1] == ResourceIds(m)[..i] + [resource];
      deps := deps + {resource};
      edges := edges + [AssemblyEdge(resource, m.id, "resource", resource)];
    }
    assert ResourceIds(m)[..|m.resources|] == ResourceIds(m);
  }

  /** The loop over the startAfter entries of a module: each is a module, a resource or neither. */
  method AssembleLifecycle(m: Module, ids: set<string>, resourceIds: set<string>)
    returns (modules: set<string>, resources: set<string>, edges: seq<AssemblyEdge>)
    ensures modules == set d | d in m.startAfter && d in ids
    ensures resources == set d | d in m.startAfter && d !in ids && d in resourceIds
    ensures edges == LifecycleEdges(m)
  {
    modules, resources, edges := {}, {}, [];
    for i := 0 to |m.startAfter|
      invariant modules == set d | d in m.startAfter[..i] && d in ids
      invariant resources == set d | d in m.startAfter[..i] && d !in ids && d in resourceIds
      invariant edges == LifecycleEdges(m)[..i]
    {
      var dependency := m.startAfter[i];
      assert m.startAfter[..i + 1] == m.startAfter[..i] + [dependency];
      if dependency in ids {
        modules := modules + {dependency};
      } else if dependency in resourceIds {
        resources := resources + {dependency};
      }
      edges := edges + [AssemblyEdge(dependency, m.id, "lifecycle", dependency)];
    }
    assert m.startAfter[..|m.startAfter|] == m.startAfter;
  }

  /** One turn of the main loop: the three inner loops over a module. */
  method AssembleModule(m: Module, providers: map<string, string>, ids: set<string>, resourceIds: set<string>)
    returns (node: Node, edges: seq<AssemblyEdge>)
    requires Provided(m, providers)
    ensures node == NodeOf(m, providers, ids, resourceIds)
    ensures edges == EdgesOf(m, providers)
  {
    var moduleDeps, interfaceEdges := AssembleInterfaces(m, providers);
    var resourceDeps, resourceEdges := AssembleRequests(m);
    var moreModules, moreResources, lifecycleEdges := AssembleLifecycle(m, ids, resourceIds);
    edges := interfaceEdges + resourceEdges + lifecycleEdges;
    node := Node(m.id, m, ProvidedIds(m), m.needs, ResourceIds(m),
                 SortedSet(moduleDeps + moreModules), SortedSet(resourceDeps + moreResources));
  }

  /** Every id of the order names a module whose requirements have providers. */
  ghost predicate Buildable(g: Graph) {
    forall id :: id in g.order ==> id in g.modulesById && Provided(g.modulesById[id], g.providers)
  }

  ghost function CollectEdges(g: Graph, order: seq<string>): seq<AssemblyEdge>
    requires forall id :: id in order ==> id in g.modulesById && Provided(g.modulesById[id], g.providers)
  {
    if order == [] then []
    else
      var last := |order| - 1;
      CollectEdges(g, order[..last]) + EdgesOf(g.modulesById[order[last]], g.providers)
  }

  ghost function NodesOf(g: Graph, order: seq<string>, resourceIds: set<string>): map<string, Node>
    requires forall id :: id in order ==> id in g.modulesById && Provided(g.modulesById[id], g.providers)
  {
    map id | id in order :: NodeOf(g.modulesById[id], g.providers, g.modulesById.Keys, resourceIds)
  }

  /** The assembly of a valid graph and its resources. */
  ghost function Assembled(g: Graph, resources: map<string, Resource>): Application
    requires Buildable(g)
  {
    Application(
      NodesOf(g, g.order, resources.Keys),
      g.providers, resources, Sort(CollectEdges(g, g.order), EdgeLe), g.order, g.order, g.shutdown)
  }

  lemma NextNode(g: Graph, i: nat, resourceIds: set<string>)
    requires Buildable(g) && i < |g.order|
    ensures var id := g.order[i];
      && id in g.modulesById && Provided(g.modulesById[id], g.providers)
      && NodesOf(g, g.order[..i + 1], resourceIds)
        == NodesOf(g, g.order[..i], resourceIds)[
             id := NodeOf(g.modulesById[id], g.providers, g.modulesById.Keys, resourceIds)]
      && CollectEdges(g, g.order[..i + 1]) == CollectEdges(g, g.order[..i]) + EdgesOf(g.modulesById[id], g.providers)
  {
    assert g.order[..i + 1] == g.order[..i] + [g.order[i]];
    assert g.order[..i + 1][..i] == g.order[..i];
  }

  method BuildApplication(g: Graph, resources: map<string, Resource>) returns (a: Application)
    requires Buildable(g)
    ensures a == Assembled(g, resources)
  {
    var nodes: map<string, Node> := map[];
    var edges: seq<AssemblyEdge> := [];
    for i := 0 to |g.order|
      invariant nodes == NodesOf(g, g.order[..i], resources.Keys)
      invariant edges == CollectEdges(g, g.order[..i])
    {
      var id := g.order[i];
      NextNode(g, i, resources.Keys);
      var node, more := AssembleModule(g.modulesById[id], g.providers, g.modulesById.Keys, resources.Keys);
      nodes := nodes[id := node];
      edges := edges + more;
    }
    assert g.order[..|g.order|] == g.order;
    a := Application(nodes, g.providers, resources, Sort(edges, EdgeLe), g.order, g.order, g.shutdown);
  }
}

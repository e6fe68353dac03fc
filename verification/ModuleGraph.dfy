/** Module definitions and the declarative meaning of a valid module graph. */
module ModuleModel {
  import opened Collections
  import opened Sorting
  import opened Graphs
  import PosixPath

  datatype ProvidedInterface = ProvidedInterface(id: string, kind: string, protocol: Option<string>,
      contract: Option<string>)

  datatype ResourceRequest = ResourceRequest(id: string, kind: string, scope: string)

  datatype Module = Module(
    id: string, version: string, primitive: string, kit: string, source: string,
    offers: seq<ProvidedInterface>, needs: seq<string>, resources: seq<ResourceRequest>, startAfter: seq<string>)

  datatype ErrorClass = ValidationError | DependencyError

  datatype GraphError =
    | DuplicateModuleId(id: string)
    | SourceCollision(id: string, other: string, path: string)
    | DuplicateProvided(id: string, iface: string)
    | ProviderCollision(id: string, other: string, iface: string)
    | DuplicateRequired(id: string, iface: string)
    | DuplicateResource(id: string, resource: string)
    | UnresolvedInterface(id: string, iface: string)
    | SelfStartAfter(id: string)
    | UnknownStartAfter(id: string, dependency: string)
    | DependencyCycle(ids: seq<string>)
  {
    function Class(): ErrorClass {
      if UnresolvedInterface? || SelfStartAfter? || UnknownStartAfter? || DependencyCycle? then DependencyError
      else ValidationError
    }
  }

  datatype Graph = Graph(
    modulesById: map<string, Module>, providers: map<string, string>, order: seq<string>, shutdown: seq<string>)

  function ProvidedIds(m: Module): (r: seq<string>)
    ensures |r| == |m.offers| && forall i :: 0 <= i < |r| ==> r[i] == m.offers[i].id
  {
    seq(|m.offers|, i requires 0 <= i < |m.offers| => m.offers[i].id)
  }

  function ResourceIds(m: Module): (r: seq<string>)
    ensures |r| == |m.resources| && forall i :: 0 <= i < |r| ==> r[i] == m.resources[i].id
  {
    seq(|m.resources|, i requires 0 <= i < |m.resources| => m.resources[i].id)
  }

  function SourceKey(m: Module): string {
    PosixPath.AsPosix(m.source)
  }

  function Ids(ms: set<Module>): set<string> {
    set m | m in ms :: m.id
  }

  ghost predicate Provides(ms: set<Module>, id: string, iface: string) {
    exists m :: m in ms && m.id == id && iface in ProvidedIds(m)
  }

  ghost predicate Requested(ms: set<Module>, resource: string) {
    exists m :: m in ms && resource in ResourceIds(m)
  }

  // ---------------------------------------------------------------- structural rules

  ghost predicate OtherId(a: Module, b: Module) { a.id != b.id }

  ghost predicate OtherSource(a: Module, b: Module) { SourceKey(a) != SourceKey(b) }

  ghost predicate NoSharedInterface(a: Module, b: Module) {
    forall i :: i in ProvidedIds(a) ==> i !in ProvidedIds(b)
  }

  ghost predicate UniqueIds(ms: seq<Module>) { Pairwise(ms, OtherId) }

  ghost predicate UniqueSources(ms: seq<Module>) { Pairwise(ms, OtherSource) }

  ghost predicate UniqueProviders(ms: seq<Module>) {
    (forall m :: m in ms ==> Distinct(ProvidedIds(m))) && Pairwise(ms, NoSharedInterface)
  }

  ghost predicate UniqueRequests(ms: seq<Module>) {
    forall m :: m in ms ==> Distinct(m.needs) && Distinct(ResourceIds(m))
  }

  ghost predicate StructureOk(ms: seq<Module>) {
    UniqueIds(ms) && UniqueSources(ms) && UniqueProviders(ms) && UniqueRequests(ms)
  }

  ghost predicate ModuleResolved(ms: set<Module>, m: Module) {
    && (forall n :: n in m.needs ==> exists id :: Provides(ms, id, n))
    && m.id !in m.startAfter
    && (forall d :: d in m.startAfter ==> d in Ids(ms) || Requested(ms, d))
  }

  ghost predicate DependenciesOk(ms: set<Module>) {
    forall m :: m in ms ==> ModuleResolved(ms, m)
  }

  // ---------------------------------------------------------------- the dependency relation

  /**
    Module `m` must wait for module `a`: `a` provides an interface `m` requires, or
    `m` names `a` in its startAfter list. A module never waits for itself, and a
    provider whose id is the empty string is skipped by the truth test on the id.
   */
  ghost predicate WaitsFor(ms: set<Module>, m: Module, a: string) {
    && a != m.id
    && ((a != "" && exists n :: n in m.needs && Provides(ms, a, n)) || (a in m.startAfter && a in Ids(ms)))
  }

  ghost predicate Precedes(ms: set<Module>, a: string, b: string) {
    exists m :: m in ms && m.id == b && WaitsFor(ms, m, a)
  }

  ghost function DependencyEdges(ms: set<Module>): (edges: Edges)
    ensures Within(Ids(ms), edges)
    ensures forall a :: (a, a) !in edges
    ensures forall a, b :: a in Ids(ms) && b in Ids(ms) ==> ((a, b) in edges <==> Precedes(ms, a, b))
  {
    set a, b | a in Ids(ms) && b in Ids(ms) && Precedes(ms, a, b) :: (a, b)
  }

  function Reverse<T>(s: seq<T>): (r: seq<T>)
    ensures |r| == |s| && forall i :: 0 <= i < |s| ==> r[i] == s[|s| - 1 - i]
  {
    if s == [] then [] else Reverse(s[1..]) + [s[0]]
  }

  ghost predicate ProvidersDescribe(providers: map<string, string>, ms: set<Module>) {
    && (forall i :: i in providers ==> Provides(ms, providers[i], i))
    && (forall m, i :: m in ms && i in ProvidedIds(m) ==> i in providers && providers[i] == m.id)
  }

  ghost predicate IndexDescribes(byId: map<string, Module>, ms: set<Module>) {
    byId.Keys == Ids(ms) && forall m :: m in ms ==> byId[m.id] == m
  }

  ghost predicate Describes(g: Graph, ms: set<Module>) {
    && IndexDescribes(g.modulesById, ms)
    && ProvidersDescribe(g.providers, ms)
    && g.order == Order(Ids(ms), DependencyEdges(ms))
    && g.shutdown == Reverse(g.order)
  }

  /** The modules that lie on a dependency cycle or downstream of one. */
  ghost function CycleReport(ms: set<Module>): seq<string> {
    SortedSet(set id | id in Ids(ms) && Tainted(id, DependencyEdges(ms)))
  }

  /** The collision or broken reference an error names is really there. */
  ghost predicate Truthful(e: GraphError, ms: seq<Module>) {
    match e
    case DuplicateModuleId(id) =>
      exists i, j :: 0 <= i < j < |ms| && ms[i].id == id && ms[j].id == id
    case SourceCollision(id, other, path) =>
      exists i, j :: 0 <= i < j < |ms| && ms[i].id == other && ms[j].id == id && ms[j].source == path
                     && SourceKey(ms[i]) == SourceKey(ms[j])
    case DuplicateProvided(id, iface) =>
      exists m :: m in ms && m.id == id && multiset(ProvidedIds(m))[iface] >= 2
    case ProviderCollision(id, other, iface) =>
      exists i, j :: 0 <= i < j < |ms| && ms[i].id == other && ms[j].id == id
                     && iface in ProvidedIds(ms[i]) && iface in ProvidedIds(ms[j])
    case DuplicateRequired(id, iface) =>
      exists m :: m in ms && m.id == id && multiset(m.needs)[iface] >= 2
    case DuplicateResource(id, resource) =>
      exists m :: m in ms && m.id == id && multiset(ResourceIds(m))[resource] >= 2
    case UnresolvedInterface(id, iface) =>
      exists m :: m in ms && m.id == id && iface in m.needs && forall p :: !Provides(ToSet(ms), p, iface)
    case SelfStartAfter(id) =>
      exists m :: m in ms && m.id == id && id in m.startAfter
    case UnknownStartAfter(id, dependency) =>
      exists m :: m in ms && m.id == id && dependency in m.startAfter
                  && dependency !in Ids(ToSet(ms)) && !Requested(ToSet(ms), dependency)
    case DependencyCycle(ids) => ids == CycleReport(ToSet(ms)) && ids != []
  }

  /** Which rule a rejected list breaks first: the checks run in this order over the whole list. */
  ghost predicate Blames(e: GraphError, ms: seq<Module>) {
    && (e.DuplicateModuleId? <==> !UniqueIds(ms))
    && (e.SourceCollision? <==> UniqueIds(ms) && !UniqueSources(ms))
    && (e.DuplicateProvided? || e.ProviderCollision? <==> UniqueIds(ms) && UniqueSources(ms) && !UniqueProviders(ms))
    && (e.DuplicateRequired? || e.DuplicateResource? <==>
          UniqueIds(ms) && UniqueSources(ms) && UniqueProviders(ms) && !UniqueRequests(ms))
    && (e.UnresolvedInterface? || e.SelfStartAfter? || e.UnknownStartAfter? <==>
          StructureOk(ms) && !DependenciesOk(ToSet(ms)))
    && (e.DependencyCycle? <==> StructureOk(ms) && DependenciesOk(ToSet(ms)))
  }

  /** What validation promises about its result `r` for the list `ms`. */
  ghost predicate Validated(ms: seq<Module>, r: Result<Graph, GraphError>) {
    && (r.Ok? <==> StructureOk(ms) && DependenciesOk(ToSet(ms)) && Acyclic(DependencyEdges(ToSet(ms))))
    && (r.Ok? ==> Describes(r.value, ToSet(ms)))
    && (r.Err? ==> Truthful(r.error, ms) && Blames(r.error, ms))
  }
}

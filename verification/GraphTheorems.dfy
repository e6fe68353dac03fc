/** What a validated module graph guarantees, and its independence from the order of the list. */
module GraphTheorems {
  import opened Collections
  import opened Sorting
  import opened Graphs
  import opened ModuleModel
  import opened ModuleValidation

  /**
    Success: a topological order of all modules, the one lexicographically least among them. It places at each step,
    of the ids whose predecessors are all placed, the first by code point.
   */
  lemma ValidGraphOrder(ms: seq<Module>, r: Result<Graph, GraphError>)
    requires Validated(ms, r) && r.Ok?
    ensures |r.value.order| == |ms|
    ensures Topological(r.value.order, Ids(ToSet(ms)), DependencyEdges(ToSet(ms)))
    ensures forall other :: Topological(other, Ids(ToSet(ms)), DependencyEdges(ToSet(ms))) ==>
      ListLe(r.value.order, other)
    ensures forall other :: Topological(other, Ids(ToSet(ms)), DependencyEdges(ToSet(ms))) ==>
      (ListLe(other, r.value.order) <==> other == r.value.order)
    ensures forall i: nat, id :: Waiting(r.value.order, Ids(ToSet(ms)), DependencyEdges(ToSet(ms)), i, id) ==>
      !ByCodePoint(id, r.value.order[i])
  {
    var nodes, edges := Ids(ToSet(ms)), DependencyEdges(ToSet(ms));
    CompleteIffAcyclic(nodes, edges);
    CompleteIsTopological(nodes, edges);
    forall other | Topological(other, nodes, edges)
      ensures ListLe(r.value.order, other) && (ListLe(other, r.value.order) <==> other == r.value.order)
    {
      LexicographicallyLeast(nodes, edges, other);
      if ListLe(other, r.value.order) {
        ListLeAntisymmetric(other, r.value.order);
      }
    }
    forall i: nat, id | Waiting(r.value.order, nodes, edges, i, id) ensures !ByCodePoint(id, r.value.order[i]) {
      PlacesTheFirst(nodes, edges, i, id);
    }
    IdListDistinct(ms);
    DistinctCardinality(IdList(ms));
  }

  /**
    For input that passes the earlier checks, the sort fails exactly on a cycle and names exactly the ids it taints.
   */
  lemma CycleNamesTheTainted(ms: seq<Module>, r: Result<Graph, GraphError>)
    requires Validated(ms, r) && StructureOk(ms) && DependenciesOk(ToSet(ms))
    ensures r.Err? <==> exists c :: IsCycle(c, DependencyEdges(ToSet(ms)))
    ensures r.Err? ==> r.error.DependencyCycle? && Sorted(r.error.ids, StrLe)
    ensures r.Err? ==> forall id :: id in r.error.ids <==>
      id in Ids(ToSet(ms)) && Tainted(id, DependencyEdges(ToSet(ms)))
  {
    if r.Err? {
      var report := CycleReport(ToSet(ms));
      forall id ensures id in report <==> id in ToSet(report) {
      }
    }
  }

  // ---------------------------------------------------------------- order independence

  lemma RulesSymmetric()
    ensures Symmetric(OtherId) && Symmetric(OtherSource) && Symmetric(NoSharedInterface)
  {
  }

  lemma StructurePermutation(a: seq<Module>, b: seq<Module>)
    requires multiset(a) == multiset(b)
    ensures UniqueIds(a) ==> UniqueIds(b)
    ensures UniqueSources(a) ==> UniqueSources(b)
    ensures UniqueProviders(a) ==> UniqueProviders(b)
    ensures UniqueRequests(a) ==> UniqueRequests(b)
  {
    RulesSymmetric();
    SameMultisetSameElements(a, b);
    assert forall m :: m in b ==> m in ToSet(a);
    if UniqueIds(a) {
      PairwisePermutation(a, b, OtherId);
    }
    if UniqueSources(a) {
      PairwisePermutation(a, b, OtherSource);
    }
    if UniqueProviders(a) {
      PairwisePermutation(a, b, NoSharedInterface);
    }
  }

  /** The tables of a graph are determined by the set of modules. */
  lemma DescribesOneGraph(g: Graph, h: Graph, ms: set<Module>)
    requires Describes(g, ms) && Describes(h, ms)
    ensures g == h
  {
    SameIndex(g.modulesById, h.modulesById, ms);
    SameProviders(g.providers, h.providers, ms);
    SameProviders(h.providers, g.providers, ms);
    assert g.providers == h.providers;
  }

  lemma SameIndex(p: map<string, Module>, q: map<string, Module>, ms: set<Module>)
    requires IndexDescribes(p, ms) && IndexDescribes(q, ms)
    ensures p == q
  {
    forall id | id in p ensures p[id] == q[id] {
      var m :| m in ms && m.id == id;
    }
  }

  lemma SameProviders(p: map<string, string>, q: map<string, string>, ms: set<Module>)
    requires ProvidersDescribe(p, ms) && ProvidersDescribe(q, ms)
    ensures forall i :: i in p ==> i in q && q[i] == p[i]
  {
    forall i | i in p ensures i in q && q[i] == p[i] {
      var m :| m in ms && m.id == p[i] && i in ProvidedIds(m);
    }
  }

  /** Listing the modules in another order changes neither the graph nor the class of a failure. */
  lemma ValidationPermutation(a: seq<Module>, b: seq<Module>, r: Result<Graph, GraphError>,
      s: Result<Graph, GraphError>)
    requires multiset(a) == multiset(b) && Validated(a, r) && Validated(b, s)
    ensures r.Ok? == s.Ok?
    ensures r.Ok? ==> r == s
    ensures r.Err? ==> r.error.Class() == s.error.Class()
    ensures r.Err? ==> (r.error.Class().DependencyError? <==> StructureOk(a))
    ensures r.Err? && r.error.DependencyCycle? ==> r == s
  {
    StructurePermutation(a, b);
    StructurePermutation(b, a);
    SameMultisetSameElements(a, b);
    if r.Ok? {
      DescribesOneGraph(r.value, s.value, ToSet(a));
    }
  }
}

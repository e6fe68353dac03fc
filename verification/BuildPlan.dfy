/** `ApplicationBuildCoordinator.plan` and `tree_digest`: reviewed plans bound to source digests. */
module BuildPlans {
  import opened Collections
  import opened Sorting
  import opened Graphs
  import opened ModuleModel
  import opened ModuleValidation
  import opened Assembly
  import opened AssemblyTheorems
  import opened KitReferences

  datatype FileDigest = FileDigest(path: string, contentDigest: string, sizeBytes: nat)

  datatype KitDefinition = KitDefinition(adapterId: string, primitive: string, buildSupported: bool)

  datatype ModulePlan = ModulePlan(
    id: string, kitId: string, kitVersion: string, adapterId: string, reviewedPlan: string,
    sourceRoot: string, sourceDigest: string, sourceFiles: seq<FileDigest>)

  /** The part of a module plan that enters the plan digest. */
  datatype PlanEntry = PlanEntry(
    id: string, kitId: string, kitVersion: string, adapterId: string, reviewedPlan: string, sourceDigest: string)

  datatype ApplicationPlan = ApplicationPlan(buildOrder: seq<string>, modules: seq<ModulePlan>, digest: string)

  datatype PlanError =
    | NotAssembled(cause: AssemblyError)
    | BadKitReference(kitError: KitError)
    | KitNotFound
    | BuildsUnsupported
    | PrimitiveMismatch
    | KitValidationFailed
    | SourceEscapes
    | UnsafeTree
    | DuplicatePaths

  /** The catalog, the adapters, the file system and the digests, as the coordinator sees them. */
  datatype Environment = Environment(
    classes: CharClasses,
    catalog: map<KitReference, KitDefinition>,
    hasFindings: (KitReference, Module) -> bool,
    reviewedPlan: (KitReference, Module) -> string,
    resolveSource: string -> Option<string>,
    safeTree: string -> Option<seq<FileDigest>>,
    treeHash: seq<FileDigest> -> string,
    planHash: (seq<string>, seq<PlanEntry>) -> string)

  predicate PathLe(a: FileDigest, b: FileDigest) {
    StrLe(a.path, b.path)
  }

  function Paths(files: seq<FileDigest>): (r: seq<string>)
    ensures |r| == |files| && forall i :: 0 <= i < |files| ==> r[i] == files[i].path
  {
    seq(|files|, i requires 0 <= i < |files| => files[i].path)
  }

  /** `tree_digest`: sort by path, refuse a repeated path, hash the listing. */
  function TreeDigest(env: Environment, files: seq<FileDigest>): Result<string, PlanError> {
    var ordered := Sort(files, PathLe);
    if |ToSet(Paths(ordered))| != |ordered| then Err(DuplicatePaths) else Ok(env.treeHash(ordered))
  }

  function PlanModule(env: Environment, m: Module): Result<ModulePlan, PlanError> {
    var parsed := Parse(env.classes, m.kit);
    if parsed.Err? then Err(BadKitReference(parsed.error))
    else
      var reference := parsed.value;
      if reference !in env.catalog then Err(KitNotFound)
      else
        var definition := env.catalog[reference];
        if !definition.buildSupported then Err(BuildsUnsupported)
        else if definition.primitive != m.primitive then Err(PrimitiveMismatch)
        else if env.hasFindings(reference, m) then Err(KitValidationFailed)
        else
          var root := env.resolveSource(m.source);
          if root.None? then Err(SourceEscapes)
          else
            var files := env.safeTree(root.value);
            if files.None? then Err(UnsafeTree)
            else
              var digest := TreeDigest(env, files.value);
              if digest.Err? then Err(digest.error)
              else Ok(ModulePlan(m.id, reference.kitId, reference.version, definition.adapterId,
                                 env.reviewedPlan(reference, m), root.value, digest.value, files.value))
  }

  function Entry(p: ModulePlan): PlanEntry {
    PlanEntry(p.id, p.kitId, p.kitVersion, p.adapterId, p.reviewedPlan, p.sourceDigest)
  }

  function Entries(plans: seq<ModulePlan>): (r: seq<PlanEntry>)
    ensures |r| == |plans| && forall i :: 0 <= i < |plans| ==> r[i] == Entry(plans[i])
  {
    seq(|plans|, i requires 0 <= i < |plans| => Entry(plans[i]))
  }

  type Planner = Module -> Result<ModulePlan, PlanError>

  function PlannerOf(env: Environment): Planner {
    m => PlanModule(env, m)
  }

  /** The plans of the first modules of the order, or the first failure. */
  ghost function PlanPrefix(planner: Planner, a: Application, n: nat): Result<seq<ModulePlan>, PlanError>
    requires n <= |a.buildOrder| && forall id :: id in a.buildOrder ==> id in a.nodes
  {
    if n == 0 then Ok([])
    else
      var before := PlanPrefix(planner, a, n - 1);
      if before.Err? then before
      else
        var next := planner(a.nodes[a.buildOrder[n - 1]].definition);
        if next.Err? then Err(next.error) else Ok(before.value + [next.value])
  }

  ghost predicate Ordered(a: Application) {
    forall id :: id in a.buildOrder ==> id in a.nodes
  }

  ghost predicate PlansApplication(env: Environment, a: Application, r: Result<ApplicationPlan, PlanError>) {
    && Ordered(a)
    && var plans := PlanPrefix(PlannerOf(env), a, |a.buildOrder|);
       r == if plans.Err? then Err(plans.error)
            else Ok(ApplicationPlan(a.buildOrder, plans.value, env.planHash(a.buildOrder, Entries(plans.value))))
  }

  // ---------------------------------------------------------------- what a module needs to be planned

  /** The reference the module's kit names is in the catalog, supports builds and fits the module. */
  ghost predicate KitReady(env: Environment, m: Module, reference: KitReference) {
    && Parse(env.classes, m.kit) == Ok(reference) && reference in env.catalog
    && env.catalog[reference].buildSupported && env.catalog[reference].primitive == m.primitive
    && !env.hasFindings(reference, m)
  }

  /** The files in the order of their paths, each once. */
  ghost predicate ListedByPath(files: seq<FileDigest>, listing: seq<FileDigest>) {
    && multiset(listing) == multiset(files)
    && forall i, j :: 0 <= i < j < |listing| ==> ByCodePoint(listing[i].path, listing[j].path)
  }

  /** The module's source is the tree at `root`, which holds `files`, no two of them under one path. */
  ghost predicate SourceReady(env: Environment, m: Module, root: string, files: seq<FileDigest>) {
    env.resolveSource(m.source) == Some(root) && env.safeTree(root) == Some(files) && Distinct(Paths(files))
  }

  ghost predicate Plannable(env: Environment, m: Module) {
    && (exists reference :: KitReady(env, m, reference))
    && (exists root, files :: SourceReady(env, m, root, files))
  }

  /** `p` is made of the module's id, its parsed kit with the catalog's adapter, and its resolved sources. */
  ghost predicate PlanOf(env: Environment, m: Module, p: ModulePlan) {
    var reference := KitReference(p.kitId, p.kitVersion);
    && p.id == m.id && KitReady(env, m, reference) && SourceReady(env, m, p.sourceRoot, p.sourceFiles)
    && p.adapterId == env.catalog[reference].adapterId && p.reviewedPlan == env.reviewedPlan(reference, m)
    && exists listing :: ListedByPath(p.sourceFiles, listing) && p.sourceDigest == env.treeHash(listing)
  }

  /** Every kit test before the one that `e` reports passes, and that one fails. */
  ghost predicate KitFault(env: Environment, m: Module, e: PlanError) {
    match Parse(env.classes, m.kit)
    case Err(why) => e == BadKitReference(why)
    case Ok(reference) =>
      match e
      case KitNotFound => reference !in env.catalog
      case BuildsUnsupported => reference in env.catalog && !env.catalog[reference].buildSupported
      case PrimitiveMismatch =>
        && reference in env.catalog && env.catalog[reference].buildSupported
        && env.catalog[reference].primitive != m.primitive
      case KitValidationFailed =>
        && reference in env.catalog && env.catalog[reference].buildSupported
        && env.catalog[reference].primitive == m.primitive && env.hasFindings(reference, m)
      case _ => false
  }

  ghost predicate SourceFault(env: Environment, m: Module, e: PlanError) {
    match e
    case SourceEscapes => env.resolveSource(m.source).None?
    case UnsafeTree => env.resolveSource(m.source).Some? && env.safeTree(env.resolveSource(m.source).value).None?
    case DuplicatePaths =>
      exists root, files :: env.resolveSource(m.source) == Some(root) && env.safeTree(root) == Some(files) &&
        !Distinct(Paths(files))
    case _ => false
  }

  /** What stops the module: the first kit test that fails, or with a ready kit the first source test. */
  ghost predicate Fault(env: Environment, m: Module, e: PlanError) {
    KitFault(env, m, e) || ((exists reference :: KitReady(env, m, reference)) && SourceFault(env, m, e))
  }

  /** A module is planned exactly when it is plannable, and otherwise its fault is reported. */
  lemma ModulePlanMeans(env: Environment, m: Module)
    ensures PlanModule(env, m).Ok? <==> Plannable(env, m)
    ensures PlanModule(env, m).Ok? ==> PlanOf(env, m, PlanModule(env, m).value)
    ensures PlanModule(env, m).Err? ==> Fault(env, m, PlanModule(env, m).error)
  {
    var parsed, root := Parse(env.classes, m.kit), env.resolveSource(m.source);
    if parsed.Ok? && KitReady(env, m, parsed.value) {
      if root.Some? && env.safeTree(root.value).Some? {
        var files := env.safeTree(root.value).value;
        ReadyModule(env, m, parsed.value, root.value, files);
        assert Distinct(Paths(files)) ==> SourceReady(env, m, root.value, files);
      } else {
        UnreadySource(env, m, parsed.value);
      }
    } else {
      UnreadyKit(env, m);
    }
  }

  lemma UnreadyKit(env: Environment, m: Module)
    requires Parse(env.classes, m.kit).Ok? ==> !KitReady(env, m, Parse(env.classes, m.kit).value)
    ensures PlanModule(env, m).Err? && KitFault(env, m, PlanModule(env, m).error)
  {
  }

  lemma UnreadySource(env: Environment, m: Module, reference: KitReference)
    requires KitReady(env, m, reference)
    requires var root := env.resolveSource(m.source); root.None? || env.safeTree(root.value).None?
    ensures PlanModule(env, m).Err? && SourceFault(env, m, PlanModule(env, m).error)
  {
  }

  /** With a ready kit and a safe tree only repeated paths are in the way of a plan. */
  lemma ReadyModule(env: Environment, m: Module, reference: KitReference, root: string, files: seq<FileDigest>)
    requires KitReady(env, m, reference) && env.resolveSource(m.source) == Some(root)
    requires env.safeTree(root) == Some(files)
    ensures match PlanModule(env, m)
      case Ok(p) => Distinct(Paths(files)) && PlanOf(env, m, p)
      case Err(e) => e == DuplicatePaths && !Distinct(Paths(files))
  {
    TreeDigestMeans(env, files);
    var r := PlanModule(env, m);
    assert r.Ok? ==> KitReference(r.value.kitId, r.value.kitVersion) == reference && r.value.sourceFiles == files;
  }

  ghost predicate PlanOutcome(env: Environment, ms: seq<Module>, r: Result<ApplicationPlan, PlanError>) {
    exists s :: AssemblyOutcome(ms, s) && PlansAssembly(env, s, r)
  }

  ghost predicate PlansAssembly(env: Environment, s: Result<Application, AssemblyError>,
      r: Result<ApplicationPlan, PlanError>) {
    if s.Err? then r == Err(NotAssembled(s.error)) else PlansApplication(env, s.value, r)
  }

  lemma AssembledIsOrdered(ms: seq<Module>, s: Result<Application, AssemblyError>)
    requires AssemblyOutcome(ms, s) && s.Ok?
    ensures Ordered(s.value)
  {
    OrdersAreComplete(ms, s);
    assert forall id :: id in s.value.buildOrder ==> id in ToSet(s.value.buildOrder);
  }

  lemma {:induction false} PrefixFails(planner: Planner, a: Application, k: nat, n: nat)
    requires Ordered(a) && k <= n <= |a.buildOrder| && PlanPrefix(planner, a, k).Err?
    ensures PlanPrefix(planner, a, n) == PlanPrefix(planner, a, k)
  {
    if k < n {
      PrefixFails(planner, a, k, n - 1);
    }
  }

  /** `plan`. What an outcome says about the modules is in PlanMeans. */
  method Plan(env: Environment, ms: seq<Module>) returns (r: Result<ApplicationPlan, PlanError>)
    ensures PlanOutcome(env, ms, r)
    ensures r.Ok? <==> Assemblable(ms) && forall m :: m in ms ==> Plannable(env, m)
    ensures r.Ok? ==> Planned(env, ms, r.value)
    ensures r.Err? ==> (r.error.NotAssembled? <==> !Assemblable(ms))
    ensures r.Err? && Assemblable(ms) ==> exists i: nat :: FirstFault(env, ms, i, r.error)
  {
    r := PlanModules(env, ms);
    PlanMeans(env, ms, r);
  }

  method PlanModules(env: Environment, ms: seq<Module>) returns (r: Result<ApplicationPlan, PlanError>)
    ensures PlanOutcome(env, ms, r)
  {
    var assembled := AssembleApplication(ms);
    if assembled.Err? {
      return Err(NotAssembled(assembled.error));
    }
    var a := assembled.value;
    AssembledIsOrdered(ms, assembled);
    var planned: seq<ModulePlan> := [];
    for i := 0 to |a.buildOrder|
      invariant PlanPrefix(PlannerOf(env), a, i) == Ok(planned)
    {
      assert a.buildOrder[i] in a.buildOrder;
      var next := PlanModule(env, a.nodes[a.buildOrder[i]].definition);
      if next.Err? {
        PrefixFails(PlannerOf(env), a, i + 1, |a.buildOrder|);
        assert PlansApplication(env, a, Err(next.error));
        return Err(next.error);
      }
      planned := planned + [next.value];
    }
    r := Ok(ApplicationPlan(a.buildOrder, planned, env.planHash(a.buildOrder, Entries(planned))));
    assert PlansApplication(env, a, r);
  }

  // ---------------------------------------------------------------- what an outcome says

  ghost predicate Assemblable(ms: seq<Module>) {
    GraphAccepted(ms) && ResourcesAgree(ToSet(ms)) && Collisions(ToSet(ms)) == {}
  }

  ghost function DependencyOrder(ms: seq<Module>): seq<string> {
    Order(Ids(ToSet(ms)), DependencyEdges(ToSet(ms)))
  }

  ghost predicate Named(ms: seq<Module>, id: string, m: Module) {
    m in ms && m.id == id
  }

  ghost predicate PlanOfId(env: Environment, ms: seq<Module>, id: string, p: ModulePlan) {
    exists m :: Named(ms, id, m) && PlanOf(env, m, p)
  }

  /** Module by module along the dependency order, with the digests of what the plan holds. */
  ghost predicate Planned(env: Environment, ms: seq<Module>, plan: ApplicationPlan) {
    && plan.buildOrder == DependencyOrder(ms) && |plan.modules| == |plan.buildOrder|
    && (forall i :: 0 <= i < |plan.modules| ==> PlanOfId(env, ms, plan.buildOrder[i], plan.modules[i]))
    && plan.digest == env.planHash(plan.buildOrder, Entries(plan.modules))
    && (forall i :: 0 <= i < |plan.modules| ==> Enters(plan.modules[i], Entries(plan.modules)[i]))
  }

  /** What of a module plan enters the plan digest, field by field. */
  ghost predicate Enters(p: ModulePlan, e: PlanEntry) {
    && e.id == p.id && e.kitId == p.kitId && e.kitVersion == p.kitVersion && e.adapterId == p.adapterId
    && e.reviewedPlan == p.reviewedPlan && e.sourceDigest == p.sourceDigest
  }

  /** The module at place `i` of the dependency order is the first that cannot be planned, and `e` says why. */
  ghost predicate FirstFault(env: Environment, ms: seq<Module>, i: nat, e: PlanError) {
    && i < |DependencyOrder(ms)|
    && (forall j, m :: 0 <= j < i && Named(ms, DependencyOrder(ms)[j], m) ==> Plannable(env, m))
    && exists m :: Named(ms, DependencyOrder(ms)[i], m) && !Plannable(env, m) && Fault(env, m, e)
  }

  /** The definitions in the assembly are the listed modules, in dependency order. */
  ghost predicate Ties(ms: seq<Module>, a: Application) {
    && a.buildOrder == DependencyOrder(ms) && ToSet(a.buildOrder) == a.nodes.Keys == Ids(ToSet(ms))
    && forall id, m :: id in a.nodes ==> (Named(ms, id, m) <==> m == a.nodes[id].definition)
  }

  lemma AssemblyTies(ms: seq<Module>, s: Result<Application, AssemblyError>)
    requires AssemblyOutcome(ms, s) && s.Ok?
    ensures Ties(ms, s.value)
  {
    StartupIsOrder(ms, s);
    StartupIsTopological(ms, s);
    forall id, m | id in s.value.nodes ensures Named(ms, id, m) <==> m == s.value.nodes[id].definition {
      DefinitionIsModule(ms, s, id, m);
    }
  }

  lemma DefinitionIsModule(ms: seq<Module>, s: Result<Application, AssemblyError>, id: string, m: Module)
    requires AssemblyOutcome(ms, s) && s.Ok? && id in s.value.nodes
    ensures Named(ms, id, m) <==> m == s.value.nodes[id].definition
  {
    var n, g := NodeContents(ms, s, id);
    OneModulePerId(ms, n);
    assert m in ms <==> m in ToSet(ms);
    assert n in ms <==> n in ToSet(ms);
  }

  /** The definition of an id of the order is a module of the list. */
  lemma DefinitionAt(ms: seq<Module>, a: Application, i: nat)
    requires Ties(ms, a) && Ordered(a) && i < |a.buildOrder|
    ensures Named(ms, a.buildOrder[i], a.nodes[a.buildOrder[i]].definition)
  {
  }

  lemma OnePlanned(env: Environment, m: Module, p: ModulePlan)
    requires PlannerOf(env)(m) == Ok(p)
    ensures PlanOf(env, m, p) && Plannable(env, m)
  {
    assert PlannerOf(env)(m) == PlanModule(env, m);
    ModulePlanMeans(env, m);
  }

  lemma EveryModuleOrdered(ms: seq<Module>, a: Application, m: Module) returns (i: nat)
    requires Ties(ms, a) && Ordered(a) && m in ms
    ensures i < |a.buildOrder| && a.nodes[a.buildOrder[i]].definition == m
  {
    assert m in ToSet(ms) && m.id in ToSet(a.buildOrder);
    i :| i < |a.buildOrder| && a.buildOrder[i] == m.id;
    assert Named(ms, m.id, m);
  }

  /** The planner has planned every module of the order. */
  ghost predicate PlansEach(env: Environment, a: Application, plans: seq<ModulePlan>) {
    && Ordered(a) && |plans| == |a.buildOrder|
    && forall i :: 0 <= i < |plans| ==> PlannerOf(env)(a.nodes[a.buildOrder[i]].definition) == Ok(plans[i])
  }

  lemma PlannedAt(env: Environment, ms: seq<Module>, a: Application, plans: seq<ModulePlan>, i: nat)
    requires Ties(ms, a) && PlansEach(env, a, plans) && i < |plans|
    ensures PlanOfId(env, ms, a.buildOrder[i], plans[i])
  {
    DefinitionAt(ms, a, i);
    OnePlanned(env, a.nodes[a.buildOrder[i]].definition, plans[i]);
  }

  lemma PlannableIn(env: Environment, ms: seq<Module>, a: Application, plans: seq<ModulePlan>, m: Module)
    requires Ties(ms, a) && PlansEach(env, a, plans) && m in ms
    ensures Plannable(env, m)
  {
    var i := EveryModuleOrdered(ms, a, m);
    OnePlanned(env, m, plans[i]);
  }

  lemma PlannedModules(env: Environment, ms: seq<Module>, a: Application, plan: ApplicationPlan)
    requires Ties(ms, a) && PlansApplication(env, a, Ok(plan))
    ensures Planned(env, ms, plan) && forall m :: m in ms ==> Plannable(env, m)
  {
    PrefixPlans(PlannerOf(env), a, |a.buildOrder|);
    assert PlansEach(env, a, plan.modules);
    forall i: nat | i < |plan.modules| ensures PlanOfId(env, ms, plan.buildOrder[i], plan.modules[i]) {
      PlannedAt(env, ms, a, plan.modules, i);
    }
    forall m | m in ms ensures Plannable(env, m) {
      PlannableIn(env, ms, a, plan.modules, m);
    }
  }

  /** The first module whose plan fails decides. */
  lemma {:induction false} FirstFailure(planner: Planner, a: Application, n: nat) returns (i: nat)
    requires Ordered(a) && n <= |a.buildOrder| && PlanPrefix(planner, a, n).Err?
    ensures i < n && planner(a.nodes[a.buildOrder[i]].definition) == Err(PlanPrefix(planner, a, n).error)
    ensures forall j :: 0 <= j < i ==> planner(a.nodes[a.buildOrder[j]].definition).Ok?
  {
    if PlanPrefix(planner, a, n - 1).Err? {
      i := FirstFailure(planner, a, n - 1);
    } else {
      i := n - 1;
      PrefixPlans(planner, a, n - 1);
    }
  }

  lemma StoppedModule(env: Environment, ms: seq<Module>, a: Application, e: PlanError)
    requires Ties(ms, a) && PlansApplication(env, a, Err(e))
    ensures !e.NotAssembled? && exists i: nat :: FirstFault(env, ms, i, e)
    ensures exists m :: m in ms && !Plannable(env, m)
  {
    var planner := PlannerOf(env);
    var i := FirstFailure(planner, a, |a.buildOrder|);
    var m := a.nodes[a.buildOrder[i]].definition;
    assert planner(m) == PlanModule(env, m) && Named(ms, a.buildOrder[i], m);
    ModulePlanMeans(env, m);
    forall j, n | 0 <= j < i && Named(ms, a.buildOrder[j], n) ensures Plannable(env, n) {
      assert n == a.nodes[a.buildOrder[j]].definition && planner(n) == PlanModule(env, n);
      ModulePlanMeans(env, n);
    }
    assert FirstFault(env, ms, i, e);
  }

  /**
    A plan exists if and only if the modules can be assembled and each of them is plannable; otherwise the error is
    the fault of the first module of the dependency order that is not.
   */
  lemma PlanMeans(env: Environment, ms: seq<Module>, r: Result<ApplicationPlan, PlanError>)
    requires PlanOutcome(env, ms, r)
    ensures r.Ok? <==> Assemblable(ms) && forall m :: m in ms ==> Plannable(env, m)
    ensures r.Ok? ==> Planned(env, ms, r.value)
    ensures r.Err? ==> (r.error.NotAssembled? <==> !Assemblable(ms))
    ensures r.Err? && Assemblable(ms) ==> exists i: nat :: FirstFault(env, ms, i, r.error)
  {
    var s :| AssemblyOutcome(ms, s) && PlansAssembly(env, s, r);
    if s.Ok? {
      AssemblyTies(ms, s);
      if r.Ok? {
        PlannedModules(env, ms, s.value, r.value);
      } else {
        StoppedModule(env, ms, s.value, r.error);
      }
    }
  }

  // ---------------------------------------------------------------- order independence

  ghost predicate SameFailure(e: PlanError, f: PlanError) {
    if e.NotAssembled? && f.NotAssembled? then e.cause.Class() == f.cause.Class() else e == f
  }

  /** Per-module plans, their order and the plan digest do not depend on the order of the module list. */
  lemma PlanPermutation(env: Environment, a: seq<Module>, b: seq<Module>, r: Result<ApplicationPlan, PlanError>,
      s: Result<ApplicationPlan, PlanError>)
    requires multiset(a) == multiset(b) && PlanOutcome(env, a, r) && PlanOutcome(env, b, s)
    ensures r.Ok? == s.Ok?
    ensures r.Ok? ==> r == s
    ensures r.Err? ==> SameFailure(r.error, s.error)
  {
    var p :| AssemblyOutcome(a, p) && PlansAssembly(env, p, r);
    var q :| AssemblyOutcome(b, q) && PlansAssembly(env, q, s);
    AssemblyPermutation(a, b, p, q);
    PlansDetermined(env, p, q, r, s);
  }

  lemma PlansDetermined(env: Environment, p: Result<Application, AssemblyError>, q: Result<Application, AssemblyError>,
      r: Result<ApplicationPlan, PlanError>, s: Result<ApplicationPlan, PlanError>)
    requires PlansAssembly(env, p, r) && PlansAssembly(env, q, s)
    requires p.Ok? == q.Ok? && (p.Ok? ==> p == q) && (p.Err? ==> p.error.Class() == q.error.Class())
    ensures r.Ok? == s.Ok?
    ensures r.Ok? ==> r == s
    ensures r.Err? ==> SameFailure(r.error, s.error)
  {
  }

  // ---------------------------------------------------------------- tree digests

  lemma UniquePathsNoTies(files: seq<FileDigest>)
    requires Distinct(Paths(files))
    ensures NoTies(files, PathLe)
  {
    StrLeIsTotalOrder();
    forall i, j | 0 <= i < |files| && 0 <= j < |files| && PathLe(files[i], files[j]) && PathLe(files[j], files[i])
      ensures files[i] == files[j]
    {
      assert Paths(files)[i] == Paths(files)[j];
    }
  }

  ghost predicate OtherPath(a: FileDigest, b: FileDigest) { a.path != b.path }

  lemma UniquePathsPermutation(a: seq<FileDigest>, b: seq<FileDigest>)
    requires multiset(a) == multiset(b) && Distinct(Paths(a))
    ensures Distinct(Paths(b))
  {
    assert Pairwise(a, OtherPath) by {
      forall i, j | 0 <= i < j < |a| ensures OtherPath(a[i], a[j]) {
        assert Paths(a)[i] != Paths(a)[j];
      }
    }
    PairwisePermutation(a, b, OtherPath);
    forall i, j | 0 <= i < j < |b| ensures Paths(b)[i] != Paths(b)[j] {
      assert OtherPath(b[i], b[j]);
    }
  }

  lemma DistinctIffCardinality(s: seq<string>)
    ensures Distinct(s) <==> |ToSet(s)| == |s|
  {
    if Distinct(s) {
      DistinctCardinality(s);
    } else {
      var i, j :| 0 <= i < j < |s| && s[i] == s[j];
      var t := s[..j] + s[j + 1..];
      assert s == s[..j] + [s[j]] + s[j + 1..];
      assert s[i] in s[..j];
      assert ToSet(s) == ToSet(t);
      ToSetCardinality(t);
    }
  }

  /** A digest exists exactly for listings without a repeated path. */
  /** The digest is the hash of the files listed by path; the only error is a repeated path. */
  lemma TreeDigestMeans(env: Environment, files: seq<FileDigest>)
    ensures match TreeDigest(env, files)
      case Ok(digest) =>
        Distinct(Paths(files)) && exists listing :: ListedByPath(files, listing) && digest == env.treeHash(listing)
      case Err(e) => e == DuplicatePaths && !Distinct(Paths(files))
  {
    TreeDigestAccepts(env, files);
    if Distinct(Paths(files)) {
      var listing := Sort(files, PathLe);
      StrLeIsTotalOrder();
      SortSorts(files, PathLe);
      UniquePathsPermutation(files, listing);
      forall i, j | 0 <= i < j < |listing| ensures ByCodePoint(listing[i].path, listing[j].path) {
        assert Paths(listing)[i] != Paths(listing)[j] && PathLe(listing[i], listing[j]);
        StrLessMeans(listing[i].path, listing[j].path);
      }
    }
  }

  lemma TreeDigestAccepts(env: Environment, files: seq<FileDigest>)
    ensures TreeDigest(env, files).Ok? <==> Distinct(Paths(files))
  {
    var ordered := Sort(files, PathLe);
    DistinctIffCardinality(Paths(ordered));
    if Distinct(Paths(files)) {
      UniquePathsPermutation(files, ordered);
    }
    if Distinct(Paths(ordered)) {
      UniquePathsPermutation(ordered, files);
    }
  }

  /** The two listings themselves are a collision of the tree hash. */
  ghost predicate TreesCollide(env: Environment, a: seq<FileDigest>, b: seq<FileDigest>) {
    Sort(a, PathLe) != Sort(b, PathLe) && env.treeHash(Sort(a, PathLe)) == env.treeHash(Sort(b, PathLe))
  }

  /**
    The digest identifies the collection of file records: two listings have the same digest if and only if they hold
    the same records, in any order, or are themselves a hash collision.
   */
  lemma TreeDigestIdentifies(env: Environment, a: seq<FileDigest>, b: seq<FileDigest>)
    requires TreeDigest(env, a).Ok? && TreeDigest(env, b).Ok?
    ensures TreeDigest(env, a) == TreeDigest(env, b) <==> multiset(a) == multiset(b) || TreesCollide(env, a, b)
  {
    if multiset(a) == multiset(b) {
      TreeDigestAccepts(env, a);
      UniquePathsNoTies(a);
      StrLeIsTotalOrder();
      SortPermutation(a, b, PathLe);
    }
  }

  // ---------------------------------------------------------------- what a plan digest binds

  /** The two plans themselves are a collision of the plan hash. */
  ghost predicate PlansCollide(env: Environment, p: ApplicationPlan, q: ApplicationPlan) {
    && (p.buildOrder != q.buildOrder || Entries(p.modules) != Entries(q.modules))
    && env.planHash(p.buildOrder, Entries(p.modules)) == env.planHash(q.buildOrder, Entries(q.modules))
  }

  /** Some module's source listings in the two plans are a collision of the tree hash. */
  ghost predicate SourcesCollide(env: Environment, p: ApplicationPlan, q: ApplicationPlan) {
    exists i :: 0 <= i < |p.modules| && i < |q.modules| &&
      TreesCollide(env, p.modules[i].sourceFiles, q.modules[i].sourceFiles)
  }

  ghost predicate SameModulePlan(p: ModulePlan, q: ModulePlan) {
    && p.id == q.id && p.kitId == q.kitId && p.kitVersion == q.kitVersion && p.adapterId == q.adapterId
    && p.reviewedPlan == q.reviewedPlan && p.sourceDigest == q.sourceDigest
  }

  /** Same order and, module by module, the same kit, adapter, reviewed plan and collection of source files. */
  ghost predicate SamePlans(p: ApplicationPlan, q: ApplicationPlan) {
    && p.buildOrder == q.buildOrder && |p.modules| == |q.modules|
    && (forall i :: 0 <= i < |p.modules| ==> SameModulePlan(p.modules[i], q.modules[i]))
    && (forall i :: 0 <= i < |p.modules| ==> multiset(p.modules[i].sourceFiles) == multiset(q.modules[i].sourceFiles))
  }

  /** Every module plan carries the digest of its own files. */
  ghost predicate BoundToSources(env: Environment, plan: ApplicationPlan) {
    && plan.digest == env.planHash(plan.buildOrder, Entries(plan.modules))
    && forall i :: 0 <= i < |plan.modules| ==>
        TreeDigest(env, plan.modules[i].sourceFiles) == Ok(plan.modules[i].sourceDigest)
  }

  /** A successful module plan carries the digest of its files. */
  lemma ModulePlanBound(env: Environment, m: Module)
    requires PlanModule(env, m).Ok?
    ensures TreeDigest(env, PlanModule(env, m).value.sourceFiles) == Ok(PlanModule(env, m).value.sourceDigest)
    ensures PlanModule(env, m).value.id == m.id
  {
  }

  lemma {:induction false} PrefixPlans(planner: Planner, a: Application, n: nat)
    requires Ordered(a) && n <= |a.buildOrder| && PlanPrefix(planner, a, n).Ok?
    ensures |PlanPrefix(planner, a, n).value| == n
    ensures forall i :: 0 <= i < n ==>
      planner(a.nodes[a.buildOrder[i]].definition) == Ok(PlanPrefix(planner, a, n).value[i])
  {
    if n > 0 {
      PrefixPlans(planner, a, n - 1);
    }
  }

  lemma PlannedModulesBound(env: Environment, a: Application, plans: seq<ModulePlan>)
    requires Ordered(a) && |plans| == |a.buildOrder|
    requires forall i :: 0 <= i < |plans| ==> PlannerOf(env)(a.nodes[a.buildOrder[i]].definition) == Ok(plans[i])
    ensures forall i :: 0 <= i < |plans| ==> TreeDigest(env, plans[i].sourceFiles) == Ok(plans[i].sourceDigest)
  {
    forall i | 0 <= i < |plans| ensures TreeDigest(env, plans[i].sourceFiles) == Ok(plans[i].sourceDigest) {
      var m := a.nodes[a.buildOrder[i]].definition;
      assert PlannerOf(env)(m) == PlanModule(env, m) == Ok(plans[i]);
      ModulePlanBound(env, m);
    }
  }

  lemma PlansAreBound(env: Environment, ms: seq<Module>, r: Result<ApplicationPlan, PlanError>)
    requires PlanOutcome(env, ms, r) && r.Ok?
    ensures BoundToSources(env, r.value) && |r.value.modules| == |r.value.buildOrder|
  {
    var s :| AssemblyOutcome(ms, s) && PlansAssembly(env, s, r);
    PrefixPlans(PlannerOf(env), s.value, |s.value.buildOrder|);
    PlannedModulesBound(env, s.value, r.value.modules);
  }

  /** Plans with equal digests are the same, or they exhibit a hash collision. */
  lemma PlanDigestBinds(env: Environment, a: seq<Module>, b: seq<Module>, r: Result<ApplicationPlan, PlanError>,
      s: Result<ApplicationPlan, PlanError>)
    requires PlanOutcome(env, a, r) && PlanOutcome(env, b, s) && r.Ok? && s.Ok? && r.value.digest == s.value.digest
    ensures SamePlans(r.value, s.value) || PlansCollide(env, r.value, s.value) || SourcesCollide(env, r.value, s.value)
  {
    PlansAreBound(env, a, r);
    PlansAreBound(env, b, s);
    BoundPlansAgree(env, r.value, s.value);
  }

  lemma BoundPlansAgree(env: Environment, p: ApplicationPlan, q: ApplicationPlan)
    requires BoundToSources(env, p) && BoundToSources(env, q) && p.digest == q.digest
    ensures SamePlans(p, q) || PlansCollide(env, p, q) || SourcesCollide(env, p, q)
  {
    if !PlansCollide(env, p, q) && !SourcesCollide(env, p, q) {
      assert |Entries(p.modules)| == |Entries(q.modules)|;
      forall i | 0 <= i < |p.modules|
        ensures SameModulePlan(p.modules[i], q.modules[i])
        ensures multiset(p.modules[i].sourceFiles) == multiset(q.modules[i].sourceFiles)
      {
        assert Entries(p.modules)[i] == Entries(q.modules)[i];
        TreeDigestIdentifies(env, p.modules[i].sourceFiles, q.modules[i].sourceFiles);
      }
    }
  }
}

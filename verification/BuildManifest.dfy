/** `ApplicationBuildCoordinator.manifest`: the record of verified output trees, bound to the plan. */
module BuildManifests {
  import opened Collections
  import opened ModuleModel
  import opened BuildPlans

  datatype ModuleOutput = ModuleOutput(
    id: string, kitId: string, kitVersion: string, adapterId: string, sourceDigest: string,
    outputDigest: string, outputFiles: seq<FileDigest>)

  datatype BuildManifest = BuildManifest(buildOrder: seq<string>, planDigest: string, modules: seq<ModuleOutput>,
      digest: string)

  datatype ManifestError = RootsDiffer | OutputUnsafe(id: string) | OutputRepeats(id: string)

  /** The output tree behind each root; None stands for a missing directory or a symbolic link in it. */
  type Outputs = map<string, Option<seq<FileDigest>>>

  type ManifestHash = (seq<string>, string, seq<ModuleOutput>) -> string

  function PlannedIds(plan: ApplicationPlan): set<string> {
    set p | p in plan.modules :: p.id
  }

  /** The output tree of a planned module can be recorded. */
  ghost predicate Recordable(outputs: Outputs, p: ModulePlan) {
    p.id in outputs && outputs[p.id].Some? && Distinct(Paths(outputs[p.id].value))
  }

  /** Module `i` is the first whose output tree is missing or unsafe, or else lists a path twice. */
  ghost predicate FirstUnrecordable(plan: ApplicationPlan, outputs: Outputs, i: nat, e: ManifestError) {
    && i < |plan.modules| && (forall j :: 0 <= j < i ==> Recordable(outputs, plan.modules[j]))
    && var id := plan.modules[i].id;
       && id in outputs
       && match e
          case RootsDiffer => false
          case OutputUnsafe(other) => other == id && outputs[id].None?
          case OutputRepeats(other) => other == id && outputs[id].Some? && !Distinct(Paths(outputs[id].value))
  }

  ghost predicate Manifestable(plan: ApplicationPlan, outputs: Outputs) {
    outputs.Keys == PlannedIds(plan) && forall p :: p in plan.modules ==> Recordable(outputs, p)
  }

  /** `o` records the module plan `p` and its output tree. */
  ghost predicate Records(env: Environment, outputs: Outputs, p: ModulePlan, o: ModuleOutput) {
    && o.id == p.id && o.kitId == p.kitId && o.kitVersion == p.kitVersion && o.adapterId == p.adapterId
    && o.sourceDigest == p.sourceDigest
    && p.id in outputs && outputs[p.id] == Some(o.outputFiles) && TreeDigest(env, o.outputFiles) == Ok(o.outputDigest)
  }

  ghost predicate RecordsAll(env: Environment, outputs: Outputs, plans: seq<ModulePlan>, os: seq<ModuleOutput>) {
    |os| == |plans| && forall i :: 0 <= i < |os| ==> Records(env, outputs, plans[i], os[i])
  }

  ghost predicate ManifestFor(env: Environment, hash: ManifestHash, plan: ApplicationPlan, outputs: Outputs,
      m: BuildManifest) {
    && m.buildOrder == plan.buildOrder && m.planDigest == plan.digest
    && m.digest == hash(m.buildOrder, m.planDigest, m.modules)
    && RecordsAll(env, outputs, plan.modules, m.modules)
  }

  lemma DigestExists(env: Environment, files: seq<FileDigest>)
    ensures TreeDigest(env, files).Ok? <==> Distinct(Paths(files))
  {
    TreeDigestAccepts(env, files);
  }

  lemma RecordsNext(env: Environment, outputs: Outputs, plans: seq<ModulePlan>, i: nat, os: seq<ModuleOutput>,
      o: ModuleOutput)
    requires i < |plans| && RecordsAll(env, outputs, plans[..i], os) && Records(env, outputs, plans[i], o)
    ensures RecordsAll(env, outputs, plans[..i + 1], os + [o])
  {
    forall k | 0 <= k < i + 1 ensures Records(env, outputs, plans[..i + 1][k], (os + [o])[k]) {
      if k < i {
        assert Records(env, outputs, plans[..i][k], os[k]);
      }
    }
  }

  lemma FirstHere(plan: ApplicationPlan, outputs: Outputs, i: nat)
    requires i < |plan.modules| && forall p :: p in plan.modules[..i] ==> Recordable(outputs, p)
    ensures forall j :: 0 <= j < i ==> Recordable(outputs, plan.modules[j])
  {
    assert forall j :: 0 <= j < i ==> plan.modules[j] in plan.modules[..i];
  }

  /** `manifest`: succeeds exactly when the roots match the plan and every tree can be recorded. */
  method Manifest(env: Environment, hash: ManifestHash, plan: ApplicationPlan, outputs: Outputs)
      returns (r: Result<BuildManifest, ManifestError>)
    ensures r.Ok? <==> Manifestable(plan, outputs)
    ensures r.Ok? ==> ManifestFor(env, hash, plan, outputs, r.value)
    ensures r == Err(RootsDiffer) <==> outputs.Keys != PlannedIds(plan)
    ensures r.Err? && r.error != RootsDiffer ==> exists i: nat :: FirstUnrecordable(plan, outputs, i, r.error)
  {
    if outputs.Keys != PlannedIds(plan) {
      return Err(RootsDiffer);
    }
    var modules: seq<ModuleOutput> := [];
    for i := 0 to |plan.modules|
      invariant forall p :: p in plan.modules[..i] ==> Recordable(outputs, p)
      invariant RecordsAll(env, outputs, plan.modules[..i], modules)
    {
      var p := plan.modules[i];
      assert p in plan.modules && p.id in PlannedIds(plan);
      var tree := outputs[p.id];
      if tree.None? {
        FirstHere(plan, outputs, i);
        assert FirstUnrecordable(plan, outputs, i, OutputUnsafe(p.id));
        return Err(OutputUnsafe(p.id));
      }
      var digest := TreeDigest(env, tree.value);
      DigestExists(env, tree.value);
      if digest.Err? {
        FirstHere(plan, outputs, i);
        assert FirstUnrecordable(plan, outputs, i, OutputRepeats(p.id));
        return Err(OutputRepeats(p.id));
      }
      var o := ModuleOutput(p.id, p.kitId, p.kitVersion, p.adapterId, p.sourceDigest, digest.value, tree.value);
      RecordsNext(env, outputs, plan.modules, i, modules, o);
      modules := modules + [o];
    }
    assert plan.modules[..|plan.modules|] == plan.modules;
    r := Ok(BuildManifest(plan.buildOrder, plan.digest, modules, hash(plan.buildOrder, plan.digest, modules)));
  }

  /** The two manifests themselves are a collision of the manifest hash. */
  ghost predicate ManifestsCollide(hash: ManifestHash, m: BuildManifest, n: BuildManifest) {
    && (m.buildOrder != n.buildOrder || m.planDigest != n.planDigest || m.modules != n.modules)
    && hash(m.buildOrder, m.planDigest, m.modules) == hash(n.buildOrder, n.planDigest, n.modules)
  }

  /** The output listings of the two plans agree module by module. */
  ghost predicate SameOutputs(p: ApplicationPlan, q: ApplicationPlan, a: Outputs, b: Outputs) {
    |p.modules| == |q.modules| && forall i :: 0 <= i < |p.modules| ==> SameOutput(p.modules[i], q.modules[i], a, b)
  }

  ghost predicate SameOutput(p: ModulePlan, q: ModulePlan, a: Outputs, b: Outputs) {
    p.id == q.id && p.id in a && q.id in b && a[p.id] == b[q.id]
  }

  lemma OneRecordOneOutput(env: Environment, p: ModulePlan, q: ModulePlan, a: Outputs, b: Outputs, o: ModuleOutput)
    requires Records(env, a, p, o) && Records(env, b, q, o)
    ensures SameOutput(p, q, a, b)
  {
  }

  /**
    Manifests with equal digests record the same plans, the same source collections and the same output listings,
    module by module, or they exhibit a hash collision.
   */
  lemma ManifestDigestBinds(env: Environment, hash: ManifestHash, a: seq<Module>, b: seq<Module>,
      r: Result<ApplicationPlan, PlanError>, s: Result<ApplicationPlan, PlanError>, x: Outputs, y: Outputs,
      m: BuildManifest, n: BuildManifest)
    requires PlanOutcome(env, a, r) && PlanOutcome(env, b, s) && r.Ok? && s.Ok?
    requires ManifestFor(env, hash, r.value, x, m) && ManifestFor(env, hash, s.value, y, n) && m.digest == n.digest
    ensures
      || (SamePlans(r.value, s.value) && SameOutputs(r.value, s.value, x, y))
      || ManifestsCollide(hash, m, n) || PlansCollide(env, r.value, s.value) || SourcesCollide(env, r.value, s.value)
  {
    if !ManifestsCollide(hash, m, n) {
      assert m.modules == n.modules && m.planDigest == n.planDigest;
      PlanDigestBinds(env, a, b, r, s);
      forall i | 0 <= i < |r.value.modules| ensures SameOutput(r.value.modules[i], s.value.modules[i], x, y) {
        assert Records(env, x, r.value.modules[i], m.modules[i]) && Records(env, y, s.value.modules[i], n.modules[i]);
        OneRecordOneOutput(env, r.value.modules[i], s.value.modules[i], x, y, m.modules[i]);
      }
    }
  }
}

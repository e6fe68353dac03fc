# ServiceFabric: graph, validation and lifecycle kernel

A Dafny model of the deterministic core of ServiceFabric, and proofs about it. `dafny verify dfyconfig.toml`
checks everything.

## What is modelled

- **Module graphs and build plans.** `ModuleGraph` holds the data and the dependency relation, `Graphs` the
  mathematics (paths, cycles, the alphabetical topological order), `KahnSort` and `ModuleValidation` the loops of
  `validate_module_graph`, `Assembly` the assembly loops, `BuildPlan` and `BuildManifest` the coordinator. The loops
  are proved against specifications over sets of modules, from which order independence follows.
- **The JSON Schema subset.** `JsonSchema` models the validator with its exceptions and proves it against a relation
  that says what it demands; `JsonReport` says which error is reported and when another exception is raised.
  `JsonStandard` holds the meaning the standard gives to the same keywords (JSON Schema Core 2020-12, sections 4.2.2,
  4.3, 10.2.1 and 10.3, and section 6 of Validation), where the two agree, and where not.
- **From reviewed sources to stored artifacts.** `SourceText` (UTF-8 and line endings), `SourceBundle` (paths and
  bundles), `StaticBuilder`, `ArtifactIdentity`, `ArtifactStore`; `StoreSafety` and `ArtifactPipeline` hold the
  theorems over runs and end to end.
- **Durable state machines.** Provider runs: `Scheduling`, the steps in `ProviderExecution`, the cursor, usage file
  and run store in `ProviderService`, the effect of one call in `ProviderOutcome`, the theorems in `ProviderSafety`.
  Factory runs: the steps in `FactoryLifecycle`, the record store in `FactoryStore`, the commands in `FactoryService`,
  the inspection of candidates in `CandidateReview`, the integration authority in `IntegrationTheorems`, the theorems
  in `FactorySafety` and reachable examples in `FactoryWitnesses`. Distillation decisions: `Decisions`. The theorems
  range over all runs of the steps.
- **Path ownership** in `PathOwnership`, the component registry in `Studio`, kit references in `KitReference`.
- `Collections`, `Sorting` and `Text` are the shared vocabulary.

Hash functions, canonical JSON, regular expressions, Unicode character classes, the media type registry, clocks,
providers, inspections, catalogs and Git repositories are parameters. No hash is assumed injective: a theorem about
digests concludes that the contents agree or that the values at hand are themselves a collision.

## Where the code falls short of what it seems to promise

- A provider whose id is the empty string fails a truth test and is not waited for. Its dependents start after it
  exactly when all that it waits for itself starts before them (`AssemblyTheorems.StartupFollowsDependencies`,
  `AssemblyTheorems.DependencyIsEdge`); `AssemblyTheorems.EmptyIdStartsTooLate` is a case where they do not. The
  manifest loader demands ids of 3 to 63 characters, so only definitions built by hand get here.
- Paths made of empty and dot components pass every test of `normalize_path` up to the first component and then raise
  `IndexError` instead of the validation error, and no other path does (`SourceBundles.NoComponentExactly`,
  `SourceBundles.DotHasNoComponent`); the contract models let none of them through.
- Normalising text is idempotent except for text that starts with a second byte-order mark
  (`SourceText.NormalizeIdempotent`).
- A manifest's display name joins application id and revision and is bounded by 120 characters, while an id alone may
  have 128: a build can succeed and then have no manifest (`ArtifactPipeline.BuildHasManifest`,
  `ArtifactPipeline.LongNameHasNoManifest`).
- The store publishes before it verifies, and the total-size error of verification can never show because reading the
  manifest already checks the total. A first publication that fails verification blocks its digest for ever
  (`StoreSafety.FirstPublicationDecides`, `StoreSafety.WrongSourceSpoilsDigest`); the build pipeline never causes this
  (`ArtifactPipeline.BuildApplication`).
- An interrupted or completed provider run has lost its stored policy, so it cannot be resumed directly
  (`ProviderSafety.ResumeAfterStopRaises`); executing once more makes it resumable (`ProviderSafety.ExecuteThenResume`).
- A bootstrap that fails after filling the repository can never be repeated (`FactorySafety.HalfBootstrapIsFinal`,
  `FactoryWitnesses.HalfBootstrapIsReachable`).
- A blocked integration is recorded as the handoff and is final (`FactorySafety.HandoffIsFinal`), even when the cause
  is gone and integrating would succeed (`FactoryWitnesses.BlockedHandoffRefusesSuccess`).
- Reviewing an earlier commit again supersedes all others while it stays superseded itself, so the task cannot be
  integrated until a fresh commit is reviewed (`FactorySafety.LiveAfterReview`,
  `FactoryWitnesses.ReturningStrandsTheTask`).
- A plan call that is refused because the record differs has already replaced the policy file, which `execute` reads:
  an approved run can execute a policy nobody approved (`FactorySafety.PolicyExecuted`,
  `FactoryWitnesses.UnapprovedPolicyExecutes`).
- A manifest that declares one file below another makes `put_artifact` swallow a `FileExistsError` and report a failed
  verification of an artifact it never published (`ArtifactStore.FileArtifactStore.PutArtifact`).
- The validator departs from JSON Schema on boolean schemas, on `1.0` as an integer, on sizes written as `2.0`, on
  booleans as sizes, and on constants and choices where Python takes `True` for 1. Each has its lemma and exact
  condition in `JsonStandard` (`JsonStandard.BooleanSchemaDeparts` and the lemmas after it), and
  `JsonStandard.StandardAgreement` holds for every value that meets none of them on its way through the schema.

## Model

| member | source | states |
|---|---|---|
| GraphTheorems.ValidGraphOrder | packages/servicefabric_application_model/servicefabric_application_model/validation.py:139-154 | an accepted graph has a topological order of all modules in which no id still waiting, with all its predecessors placed, precedes the next one by code point; it is the lexicographically least of them all |
| GraphTheorems.CycleNamesTheTainted | packages/servicefabric_application_model/servicefabric_application_model/validation.py:156-162 | once the earlier checks pass, the sort fails if and only if the dependency relation has a cycle, and it names exactly the ids on a cycle or reachable from one, sorted |
| GraphTheorems.ValidationPermutation | packages/servicefabric_application_model/servicefabric_application_model/validation.py:22-171 | listing the modules in another order gives the same graph, or the same class of error and the same cycle report; the class is the dependency error exactly when ids, sources, interfaces and requests are in order |
| ModuleValidation.ValidateModuleGraph | packages/servicefabric_application_model/servicefabric_application_model/validation.py:22-171 | accepts exactly the lists that break no rule and have no cycle; the error raised is the first rule broken and what it names is really there |
| ModuleValidation.CheckIds | packages/servicefabric_application_model/servicefabric_application_model/validation.py:33-42 | succeeds exactly on unique ids, and the index then maps every id to its module |
| ModuleValidation.CheckSources | packages/servicefabric_application_model/servicefabric_application_model/validation.py:44-54 | rejects exactly when two normalised source paths coincide, naming such a pair in list order |
| ModuleValidation.CheckProviders | packages/servicefabric_application_model/servicefabric_application_model/validation.py:56-74 | succeeds exactly when no interface is offered twice, and the table then maps each interface to its one provider |
| ModuleValidation.CheckRequests | packages/servicefabric_application_model/servicefabric_application_model/validation.py:76-92 | rejects exactly a repeated required interface or resource within one module |
| ModuleValidation.CheckReferences | packages/servicefabric_application_model/servicefabric_application_model/validation.py:94-116 | rejects exactly an unprovided interface, a self-reference or an unknown startAfter entry |
| ModuleValidation.BuildEdges | packages/servicefabric_application_model/servicefabric_application_model/validation.py:118-137 | the adjacency sets and counters tabulate exactly the dependency relation, self-edges and repetitions dropped |
| KahnSort.Link | packages/servicefabric_application_model/servicefabric_application_model/validation.py:127-137 | adding an edge keeps the counters equal to the number of distinct predecessors |
| KahnSort.Decrement | packages/servicefabric_application_model/servicefabric_application_model/validation.py:148-152 | every successor loses one predecessor, and exactly those that reach zero join the queue |
| KahnSort.Round | packages/servicefabric_application_model/servicefabric_application_model/validation.py:144-154 | one turn of the loop moves the least ready id to the order and keeps queue and counters exact |
| KahnSort.Kahn | packages/servicefabric_application_model/servicefabric_application_model/validation.py:139-159 | the loop with its re-sorted queue computes the mathematical order, and the counters left above zero are exactly the unplaced ids |
| Graphs.LeftoversAreTainted | packages/servicefabric_application_model/servicefabric_application_model/validation.py:143-162 | an id is left out of the order exactly when it lies on a cycle or downstream of one |
| Graphs.CompleteIffAcyclic | packages/servicefabric_application_model/servicefabric_application_model/validation.py:156-162 | the order is complete if and only if there is no cycle |
| Graphs.CompleteIsTopological | packages/servicefabric_application_model/servicefabric_application_model/validation.py:143-154 | a complete order puts every edge source before its target |
| Graphs.LexicographicallyLeast | packages/servicefabric_application_model/servicefabric_application_model/validation.py:139-154 | no topological order is smaller, by code point at the first place where they differ, than the computed one |
| Graphs.PlacesTheFirst | packages/servicefabric_application_model/servicefabric_application_model/validation.py:143-154 | of the ids whose predecessors are all placed, the first by code point comes next |
| Sorting.StrLessMeans | packages/servicefabric_application_model/servicefabric_application_model/validation.py:139-154 | the order of ids is that of proper prefixes and of code points at the first difference |
| AssemblyTheorems.AssembleApplication | packages/servicefabric_application_assembly/servicefabric_application_assembly/graph.py:64-142 | fails exactly for an invalid graph, conflicting resources or ids shared by a module and a resource, in that order; otherwise returns the assembly of the graph |
| AssemblyTheorems.AssemblyPermutation | packages/servicefabric_application_assembly/servicefabric_application_assembly/graph.py:64-142 | the order of the module list changes neither the class of the failure nor any part of the assembly |
| AssemblyTheorems.EdgesAreWanted | packages/servicefabric_application_assembly/servicefabric_application_assembly/graph.py:82-122 | the edges are exactly those the module definitions call for, ordered by target, kind, source and interface |
| Assembly.EdgeOrderMeans | packages/servicefabric_application_assembly/servicefabric_application_assembly/graph.py:134-136 | the edge order compares target, kind, source and interface, in this order, by code point |
| AssemblyTheorems.EdgeEndpoints | packages/servicefabric_application_assembly/servicefabric_application_assembly/graph.py:72-122 | every edge targets a module and starts at exactly one of a module or a resource |
| AssemblyTheorems.DependenciesAreEdgeSources | packages/servicefabric_application_assembly/servicefabric_application_assembly/graph.py:84-132 | the module and resource dependencies of a node are exactly the sources of its incoming edges |
| AssemblyTheorems.StartupFollowsDependencies | packages/servicefabric_application_assembly/servicefabric_application_assembly/graph.py:134-142 | a module starts after another module it depends on if and only if that id is not empty, or everything the module with the empty id waits for starts before the dependent |
| AssemblyTheorems.StopsInReverse | packages/servicefabric_application_assembly/servicefabric_application_assembly/graph.py:134-142 | the place in the shutdown order is the mirror image of the place in the startup order |
| Graphs.EmptyIdPlace | packages/servicefabric_application_model/servicefabric_application_model/validation.py:139-154 | in a complete order the empty id precedes another one if and only if all its predecessors do |
| AssemblyTheorems.DependencyIsEdge | packages/servicefabric_application_model/servicefabric_application_model/validation.py:124-137 | a dependency orders the startup if and only if its id is not empty or it is listed in startAfter |
| AssemblyTheorems.EmptyIdStartsTooLate | packages/servicefabric_application_model/servicefabric_application_model/validation.py:126-127 | the exception is real: two modules that require one another are accepted and the one with the empty id starts after its dependent |
| AssemblyTheorems.OrdersAreComplete | packages/servicefabric_application_assembly/servicefabric_application_assembly/graph.py:134-142 | build, startup and shutdown orders each list every module exactly once |
| Assembly.AddRequests | packages/servicefabric_application_assembly/servicefabric_application_assembly/graph.py:156-165 | the inner loop stops exactly at a request that disagrees with a stored one, and otherwise records every request and requester |
| Assembly.CollectResources | packages/servicefabric_application_assembly/servicefabric_application_assembly/graph.py:151-175 | succeeds exactly when all requests for an id agree, and lists for each resource its sorted requesters |
| Assembly.AssembleModule | packages/servicefabric_application_assembly/servicefabric_application_assembly/graph.py:82-132 | one turn of the main loop builds the node and the interface, resource and lifecycle edges of a module |
| Assembly.BuildApplication | packages/servicefabric_application_assembly/servicefabric_application_assembly/graph.py:79-142 | the main loop assembles every module of the dependency order |
| BuildPlans.Plan | packages/servicefabric_application_builder/servicefabric_application_builder/coordinator.py:79-123 | succeeds exactly when the list assembles and every module is plannable: kit parsed, in the catalog, supporting builds, of the right primitive and without findings, source resolved, tree safe and free of repeated paths; otherwise it names the first fault of the first module in build order that has one |
| BuildPlans.PlanMeans | packages/servicefabric_application_builder/servicefabric_application_builder/coordinator.py:79-123 | the plan of each module carries its id, its parsed reference, the adapter of the catalog, the resolved root and the digest of its listing, in build order |
| BuildPlans.ModulePlanMeans | packages/servicefabric_application_builder/servicefabric_application_builder/coordinator.py:81-106 | one module is planned exactly when kit and source are ready, and each error reports the first test that fails |
| BuildPlans.TreeDigestMeans | packages/servicefabric_application_builder/servicefabric_application_builder/coordinator.py:63-68 | the digest is the hash of the files listed strictly by path, and the only error is a repeated path |
| BuildPlans.PlanPermutation | packages/servicefabric_application_builder/servicefabric_application_builder/coordinator.py:79-123 | plans, their order and the plan digest do not depend on the order of the module list |
| BuildPlans.PlansAreBound | packages/servicefabric_application_builder/servicefabric_application_builder/coordinator.py:95-123 | every module plan of a successful plan carries the digest of its own files |
| BuildPlans.PlanDigestBinds | packages/servicefabric_application_builder/servicefabric_application_builder/coordinator.py:107-123 | plans with equal digests agree in order, entries and source collections, or the two plans, or two listings in them, are themselves a hash collision |
| BuildPlans.TreeDigestAccepts | packages/servicefabric_application_builder/servicefabric_application_builder/coordinator.py:63-67 | a digest exists exactly for listings without a repeated path |
| BuildPlans.TreeDigestIdentifies | packages/servicefabric_application_builder/servicefabric_application_builder/coordinator.py:63-68 | two listings have one digest if and only if they are the same collection or themselves a collision of the hash |
| BuildManifests.Manifest | packages/servicefabric_application_builder/servicefabric_application_builder/coordinator.py:125-155 | succeeds exactly when the output roots are those of the plan and each tree is safe and repeats no path, and then records each tree with its digest; otherwise it names the first module whose tree is at fault |
| BuildManifests.ManifestDigestBinds | packages/servicefabric_application_builder/servicefabric_application_builder/coordinator.py:146-155 | manifests with equal digests come from equal plans, source collections and output listings, or exhibit a hash collision in the data at hand |
| KitReferences.PrintParse | packages/servicefabric_framework_kits/servicefabric_framework_kits/identifiers.py:18-58 | printing then parsing gives a reference back if and only if its id and version are valid |
| KitReferences.ParsePrintParse | packages/servicefabric_framework_kits/servicefabric_framework_kits/identifiers.py:18-58 | for every accepted string, parse, print and parse equals parse |
| KitReferences.Parse | packages/servicefabric_framework_kits/servicefabric_framework_kits/identifiers.py:23-58 | whatever is accepted has a valid kit id and version |
| KitReferences.ParseMeans | packages/servicefabric_framework_kits/servicefabric_framework_kits/identifiers.py:40-58 | the text is cut at the first separator; the stripped part before it must be a kit id and the leftmost version of the stripped part behind it is taken, with one error for each thing that is missing |
| KitReferences.KitIdMeans | packages/servicefabric_application_model/servicefabric_application_model/loader.py:15-30 | a kit id is hyphen-joined groups of letters and digits, beginning with a letter |
| KitReferences.VersionMeans | packages/servicefabric_framework_kits/servicefabric_framework_kits/identifiers.py:53-56 | a version is three dotted numbers, possibly followed by a hyphen and a word |
| JsonSchema.RegularAgreement | packages/servicefabric_capability_invocation/servicefabric_capability_invocation/schema.py:11-113 | for every value and every regular schema, accepted if and only if it satisfies the declarative relation, and rejected otherwise |
| JsonSchema.Agreement | packages/servicefabric_capability_invocation/servicefabric_capability_invocation/schema.py:11-113 | for every schema at all, a verdict agrees with the declarative relation |
| JsonSchema.RegularReachesVerdict | packages/servicefabric_capability_invocation/servicefabric_capability_invocation/schema.py:57-63 | on a schema with well-formed type lists and patterns no exception but the validation error is raised |
| JsonSchema.CombinatorAgrees | packages/servicefabric_capability_invocation/servicefabric_capability_invocation/schema.py:26-35 | counting matches decides allOf, anyOf and oneOf as all, some and exactly one |
| JsonSchema.ObjectAgrees | packages/servicefabric_capability_invocation/servicefabric_capability_invocation/schema.py:70-88 | required, properties and additionalProperties are checked as the declarative relation demands |
| JsonReport.ReportExplained | packages/servicefabric_capability_invocation/servicefabric_capability_invocation/schema.py:11-113 | whatever is rejected is reported with the reason and place of the first unmet demand: constant, choices, combinators, type, then those on the kind of value, and inside it those of the first member by name or the first item at fault |
| JsonReport.FaultMeans | packages/servicefabric_capability_invocation/servicefabric_capability_invocation/schema.py:11-113 | for every schema at all, an exception other than the validation error is raised exactly when, all earlier demands met, the checks come to a type list or a pattern that Python cannot handle |
| JsonSchema.LocationResolves | packages/servicefabric_capability_invocation/servicefabric_capability_invocation/schema.py:26-54 | the reported location extends the given one and exists in the root value, and the path never influences the verdict |
| JsonStandard.StandardAgreement | packages/servicefabric_capability_invocation/servicefabric_capability_invocation/schema.py:11-113 | for a well-formed schema and a value that meets no departure on its way through it, every verdict reached is the one of the standard keywords, and one is reached whenever the patterns compile |
| JsonStandard.TypeNames | packages/servicefabric_capability_invocation/servicefabric_capability_invocation/schema.py:57-63 | for each of the seven type names exactly the values of its constructors are valid, and no value is valid under any other name |
| JsonStandard.EqualIsCanonical | packages/servicefabric_capability_invocation/servicefabric_capability_invocation/schema.py:20-25 | standard equality is equality of canonical forms, in which numbers are their value and members are unordered |
| JsonStandard.EqualWithoutClash | packages/servicefabric_capability_invocation/servicefabric_capability_invocation/schema.py:20-25 | JSON equality of two values is Python equality where no boolean meets a number |
| JsonStandard.BooleanSchemaDeparts | packages/servicefabric_capability_invocation/servicefabric_capability_invocation/schema.py:18-19 | a boolean schema is always refused, so validator and standard agree on it exactly for false |
| JsonStandard.IntegerDeparts | packages/servicefabric_capability_invocation/servicefabric_capability_invocation/schema.py:57-59 | for type integer they agree exactly on values other than floats without a fractional part |
| JsonStandard.OneIsAnInteger | packages/servicefabric_capability_invocation/servicefabric_capability_invocation/schema.py:57-59 | the number 1.0 is an integer by the standard and refused by the validator |
| JsonStandard.IntegerSizeAgrees | packages/servicefabric_capability_invocation/servicefabric_capability_invocation/schema.py:91-103 | any of the four sizes written as an integer is well-formed unless negative, and then validator and standard agree on every value: sizes of its kind within the bound, and all other kinds |
| JsonStandard.FloatSizeDeparts | packages/servicefabric_capability_invocation/servicefabric_capability_invocation/schema.py:91-103 | any of the four sizes written as an integral float refuses every value of its kind, so the verdicts agree exactly on other values and on sizes that break it |
| JsonStandard.BooleanSizeDeparts | packages/servicefabric_capability_invocation/servicefabric_capability_invocation/schema.py:91-103 | a boolean as one of the four sizes is no well-formed schema, and the validator reads it as 0 or 1 |
| JsonStandard.ConstantDeparts | packages/servicefabric_capability_invocation/servicefabric_capability_invocation/schema.py:20-21 | for any constant the verdicts agree exactly on the values Python does not confuse with it, booleans with numbers, at any depth |
| JsonStandard.EnumDeparts | packages/servicefabric_capability_invocation/servicefabric_capability_invocation/schema.py:22-25 | for an enumeration they agree exactly when no choice is confused with the value or one of them is equal to it |
| JsonStandard.TrueIsOne | packages/servicefabric_capability_invocation/servicefabric_capability_invocation/schema.py:20-21 | constant true accepts 1 and constant 1 accepts true |
| SourceText.DecodeEncode | packages/servicefabric_builder/servicefabric_builder/source.py:51-55 | decoding encoded text gives the text back, for every Unicode text |
| SourceText.EncodeDecode | packages/servicefabric_builder/servicefabric_builder/source.py:51-55 | whatever decodes is the encoding of what it decodes to, so decoding accepts exactly the encodings |
| SourceText.NormalizedBytes | packages/servicefabric_builder/servicefabric_builder/source.py:48-55 | normalised bytes decode to text without a carriage return and with exactly one final line feed |
| SourceText.FormsAgree | packages/servicefabric_builder/servicefabric_builder/source.py:55 | the LF, CRLF and CR forms of a text normalise alike |
| SourceText.NormalizeIdempotent | packages/servicefabric_builder/servicefabric_builder/source.py:48-55 | normalising twice equals normalising once if and only if the decoded text does not start with a second byte-order mark |
| SourceBundles.NormalizePathFixedPoints | packages/servicefabric_builder/servicefabric_builder/source.py:37-45 | the path rules leave a path alone exactly when the contract models accept it without a backslash |
| SourceBundles.NormalizePathMeans | packages/servicefabric_builder/servicefabric_builder/source.py:37-45 | the paths let through are exactly the safe ones, by characters and components, and each comes out as its named components joined |
| PosixPath.SignificantAppends | packages/servicefabric_builder/servicefabric_builder/source.py:37-45 | empty and dot components are dropped one by one, and the others keep order and number |
| PosixPath.SignificantSingle | packages/servicefabric_builder/servicefabric_builder/source.py:37-45 | a component is dropped exactly when it is empty or a dot |
| SourceBundles.NormalizedIsContractPath | packages/servicefabric_contracts/src/servicefabric_contracts/applications.py:19-28 | every path the rules let through is one the contract models accept |
| SourceBundles.NoComponentExactly | packages/servicefabric_builder/servicefabric_builder/source.py:37-45 | the missing first component is hit exactly when the path is not refused and all its components are empty or a dot |
| SourceBundles.DotHasNoComponent | packages/servicefabric_builder/servicefabric_builder/source.py:37-45 | the paths ".", "./" and "./." are such paths |
| SourceBundles.ContractPathHasComponent | packages/servicefabric_contracts/src/servicefabric_contracts/applications.py:19-28 | no path the contract models accept gets there |
| SourceBundles.ValidateSource | packages/servicefabric_builder/servicefabric_builder/source.py:58-90 | accepts exactly the manifests of few enough entries without a repeated path whose every entry names a regular file inside the root, within the size limit, under its reviewed digest, of an allowed and declared type, decodable if it is text; otherwise the first entry at fault decides which of these is reported |
| SourceBundles.EntryMeans | packages/servicefabric_builder/servicefabric_builder/source.py:64-83 | one entry passes exactly when its file is fetchable, reviewed, typed and decodable, and each error reports the first of these that fails |
| SourceTheorems.AcceptedMeans | packages/servicefabric_builder/servicefabric_builder/source.py:60-83 | the scan accepts exactly when the entries are few enough, each passes its checks, and no two share a normalised path |
| SourceBundles.AcceptableMeans | packages/servicefabric_builder/servicefabric_builder/source.py:58-90 | acceptance in terms of the files: every entry is reviewed and in order, and no two normalise alike |
| SourceTheorems.SourceOrderIsIrrelevant | packages/servicefabric_builder/servicefabric_builder/source.py:58-90 | the order of the manifest affects neither the verdict nor the bundle |
| SourceTheorems.BundleIsFaithful | packages/servicefabric_builder/servicefabric_builder/source.py:64-90 | the bundle lists, strictly by path, the normalised form of the reviewed file of every entry and nothing else: the bytes at that path have the reviewed digest and size limit; source digest and total size are those of the manifest and the listed files |
| SourceTheorems.ContractManifestKeepsOrder | packages/servicefabric_contracts/src/servicefabric_contracts/applications.py:69-73 | for a manifest the contract model accepts, the bundle keeps the declared paths in the declared order |
| StaticBuilder.Build | packages/servicefabric_builder/servicefabric_builder/builder.py:37-57 | succeeds exactly within type, limits, a fresh root, the time limit, writable paths and a present entry document; each error names its cause and what is left in the directory |
| StaticBuilder.RecordOrderMeans | packages/servicefabric_builder/servicefabric_builder/builder.py:57 | the records are ordered by path, digest, media type and size, in this order |
| ArtifactPipeline.BuildableMeans | packages/servicefabric_builder/servicefabric_builder/builder.py:37-57 | for a validated bundle no write can fail: the build stops only for type, limits, root, clock or entry document |
| ArtifactPipeline.WrittenIsBundle | packages/servicefabric_builder/servicefabric_builder/builder.py:47-53 | the output directory holds exactly the files of the bundle |
| ArtifactPipeline.ManifestOfSource | packages/servicefabric_builder/servicefabric_builder/identity.py:37-77 | the manifest of a build names the revision, its digests and the builder, and itemises exactly the reviewed files, each with the path, digest, type and size of its normal form |
| ArtifactPipeline.BuildHasManifest | packages/servicefabric_builder/servicefabric_builder/identity.py:37-77 | the manifest of a successful build is accepted if and only if application id, blank and revision fit 120 characters; it lists the files in order with their total size under a consistent digest |
| ArtifactPipeline.LongNameHasNoManifest | packages/servicefabric_contracts/src/servicefabric_contracts/metadata.py:17-19 | an application id of 115 letters with revision 1.0.0 builds and has no manifest |
| ArtifactIdentity.ContractMeans | packages/servicefabric_contracts/src/servicefabric_contracts/applications.py:141-190 | the manifest contract accepts exactly one to 4096 proper files listed once each and in order that add up to the total, with the entry document among them and digests where digests belong |
| ArtifactStore.CopyFiles | packages/servicefabric_artifacts/servicefabric_artifacts/store.py:59-63 | copies exactly the declared files, or stops at the first that is missing or in the way, telling whether its directory is a file |
| ArtifactStore.FileArtifactStore.PutArtifact | packages/servicefabric_artifacts/servicefabric_artifacts/store.py:45-80 | returns exactly when the identity is consistent and the stored or freshly copied artifact is clean; a first copy stays published even if verification then fails, and a swallowed FileExistsError ends as a failed verification with nothing published |
| ArtifactStore.FileArtifactStore.VerifyArtifact | packages/servicefabric_artifacts/servicefabric_artifacts/store.py:114-140 | valid if and only if the artifact is clean, and each list reports exactly the missing, unexpected, mismatching and verified paths |
| ArtifactStore.FileArtifactStore.GetManifest | packages/servicefabric_artifacts/servicefabric_artifacts/store.py:82-86 | returns exactly for a well-formed digest whose stored manifest is proper, and names what is wrong otherwise |
| ArtifactStore.FileArtifactStore.ListArtifacts | packages/servicefabric_artifacts/servicefabric_artifacts/store.py:88-101 | lists exactly the digests whose manifest can be read, sorted |
| ArtifactStore.FileArtifactStore.OpenFile | packages/servicefabric_artifacts/servicefabric_artifacts/store.py:103-112 | returns the stored bytes of exactly the declared paths, and each refusal has its stated reason |
| StoreSafety.RunKeepsArtifacts | packages/servicefabric_artifacts/servicefabric_artifacts/store.py:45-80 | over every run of puts, returning or raising, a published artifact never changes |
| StoreSafety.ReturnedDigestIsForGood | packages/servicefabric_artifacts/servicefabric_artifacts/store.py:45-101 | once a put has returned, the digest stays published, verifies, is listed, and consistent puts of it return, after any further puts |
| StoreSafety.FirstPublicationDecides | packages/servicefabric_artifacts/servicefabric_artifacts/store.py:49-53 | a later put of a published digest returns if and only if it is consistent and the first publication was clean |
| StoreSafety.OnlyBytesCanBeWrong | packages/servicefabric_artifacts/servicefabric_artifacts/store.py:114-140 | in every state puts can reach verification can complain about mismatching bytes and nothing else |
| StoreSafety.WrongSourceSpoilsDigest | packages/servicefabric_artifacts/servicefabric_artifacts/store.py:49-80 | one put with a truncated file raises, and from then on the put with the right files raises too, for ever |
| StoreSafety.DigestDeterminesContent | packages/servicefabric_builder/servicefabric_builder/identity.py:80-93 | two clean artifacts under one digest have the same content, or are themselves a collision of a hash function |
| ArtifactPipeline.BuiltArtifactIsStored | packages/servicefabric_artifacts/servicefabric_artifacts/store.py:45-80 | for every successful build whose name fits, put returns if and only if the digest is new or stored clean |
| ArtifactPipeline.EndToEnd | services/application_builder/service.py:33-37 | a bundle that builds has a manifest if and only if its name fits; then the stored artifact verifies and serves exactly the normalised sources, on a first publication always and later unless built and stored artifact are a hash collision |
| ArtifactPipeline.BuildApplication | services/application_builder/service.py:33-37 | the pipeline succeeds exactly when the bundle builds, the name fits and the digest is usable, and a failure leaves the store untouched |
| PathOwnership.OverlapIsSharing | integration/phase25-wave10/verify_boundaries.py:18-20 | two entries overlap if and only if some path is matched by both |
| PathOwnership.VerifyOwnership | integration/phase25-wave10/verify_boundaries.py:57-69 | accepts exactly the lanes with their own branch, a non-empty list and pairwise non-overlapping paths; otherwise reports the first lane at fault and its first broken rule |
| PathOwnership.AcceptedLanesDisjoint | integration/phase25-wave10/verify_boundaries.py:57-69 | if the verifier accepts, no path is matched by the allowed paths of two lanes |
| PathOwnership.RejectedLanesShare | integration/phase25-wave10/verify_boundaries.py:65-69 | an overlap report names a lane and an earlier claimant, and some path really is claimed by both, whatever the later lanes are |
| PathOwnership.PathMatches | scripts/agent/wave_common.py:108-114 | true exactly when some pattern is the path or one of its ancestors |
| PathOwnership.MatchesByComponents | scripts/agent/wave_common.py:108-114 | an entry matches exactly the paths whose components begin with its own, trailing slashes aside |
| PathOwnership.InspectPaths | scripts/agent/wave_task_completion.py:45-50 | reports exactly the changed files outside the allowed paths and those that are forbidden or frozen |
| PathOwnership.CompletedLanesDisjoint | scripts/agent/wave_task_completion.py:45-48 | two accepted lanes that both finish without a path_not_allowed diagnostic changed disjoint sets of files |
| Studio.StudioRegistry.RenameComponent | 9_component_lab/src/lib/StudioRegistry.ts:43-67 | one entry takes the first free id of the series after fewer turns than there are components, the others stay; an unknown id changes nothing |
| Studio.StudioRegistry.SaveComponent | 9_component_lab/src/lib/StudioRegistry.ts:24-41 | the component is found under its id afterwards; all other lookups, the other components and their order stay |
| Studio.StudioRegistry.DeleteComponent | 9_component_lab/src/lib/StudioRegistry.ts:69-73 | nothing is found under the id afterwards and all other lookups stay; an absent id changes nothing, and of unique ids exactly one entry goes |
| Studio.TakenBound | 9_component_lab/src/lib/StudioRegistry.ts:50-55 | pigeonhole: fewer suffixes can be taken than there are components |
| Studio.CandidateMeans | 9_component_lab/src/lib/StudioRegistry.ts:48-55 | the series is the slug itself, then the slug, a hyphen and the decimal numeral of the turn |
| Studio.RenameToOwnId | 9_component_lab/src/lib/StudioRegistry.ts:52 | a component renamed to its own id keeps it |
| Studio.RunKeepsUnique | 9_component_lab/src/lib/StudioRegistry.ts:24-73 | every sequence of saves, renames and deletes keeps the ids unique |
| Decisions.DecisionStore.Record | clients/python/servicefabric_client/distillation.py:129-169 | records a decision exactly when no stored one shares its candidate or id while differing, and otherwise changes nothing; another decision about the candidate is reported before a reused id |
| Decisions.RunKeepsDecisions | clients/python/servicefabric_client/distillation.py:129-169 | over every sequence of lock-protected records one decision per candidate and per id is kept, and none is altered or dropped |
| Decisions.RecordIsIdempotent | clients/python/servicefabric_client/distillation.py:152-161 | recording a stored decision again returns it and changes nothing, after any further records |
| Decisions.RefusalIsFinal | clients/python/servicefabric_client/distillation.py:138-161 | a refused decision stays refused after any further records |
| Decisions.Publish | clients/python/servicefabric_client/distillation.py:324-354 | publishes the approved publishable candidates, sorted, or fails exactly when a catalog refuses one of them |
| Decisions.PublishesExactlyApproved | clients/python/servicefabric_client/distillation.py:324-354 | a reference is published if and only if an approved publishable candidate has it |
| Decisions.PublicationGrows | clients/python/servicefabric_client/distillation.py:324-354 | for a fixed analysis the published collection only grows as decisions are added |
| Scheduling.ReadyTasksSound | packages/servicefabric_agentic_orchestrator/src/servicefabric_agentic_orchestrator/orchestrator.py:9-48 | only tasks whose dependencies succeeded within the plan are returned, each id once, and together with the pending and running ones at most as many as the plan allows |
| Scheduling.ReadyTasksComplete | packages/servicefabric_agentic_orchestrator/src/servicefabric_agentic_orchestrator/orchestrator.py:33-46 | with a slot to spare no ready task is passed over |
| Scheduling.ReadyTasksAreFirst | packages/servicefabric_agentic_orchestrator/src/servicefabric_agentic_orchestrator/orchestrator.py:9-48 | the tasks returned are the first due ones in plan order, as many as the pending and running ones leave room for |
| Scheduling.ForeignDependencyNeverReady | packages/servicefabric_agentic_orchestrator/src/servicefabric_agentic_orchestrator/orchestrator.py:22-26 | a task depending on an id outside the plan is never returned, whatever is recorded for that id |
| Scheduling.SplitPartitions | packages/servicefabric_langgraph_orchestration/src/servicefabric_langgraph_orchestration/orchestrator.py:100-114 | every request lands in exactly one batch and no batch is empty |
| Scheduling.SplitRespectsLimit | packages/servicefabric_langgraph_orchestration/src/servicefabric_langgraph_orchestration/orchestrator.py:105-113 | no batch exceeds the parallel limit of a provider |
| Scheduling.SplitIsFirstFit | packages/servicefabric_langgraph_orchestration/src/servicefabric_langgraph_orchestration/orchestrator.py:100-114 | every batch is full for the providers of all later requests, and requests keep their order within a batch and per provider across batches |
| Scheduling.CompiledBatches | packages/servicefabric_langgraph_orchestration/src/servicefabric_langgraph_orchestration/orchestrator.py:34-63 | compiled batches are non-empty, pairwise distinct and hold ready tasks only |
| Scheduling.CompiledRequests | packages/servicefabric_langgraph_orchestration/src/servicefabric_langgraph_orchestration/orchestrator.py:48-63 | the batches hold one request for each ready task, to the provider its role is given by the policy |
| ProviderService.ProviderExecutionService.AbsorbResults | clients/python/servicefabric_client/provider_execution.py:49-62 | the running total follows the recorded usage result by result, up to the first interrupt or failure |
| ProviderService.ProviderExecutionService.RunWithPolicy | clients/python/servicefabric_client/provider_execution.py:36-68 | the loop over the batches refines the step function: pending interrupt, budget, dispatch, results, budget, approval |
| ProviderService.ProviderExecutionService.RecordedSpend | clients/python/servicefabric_client/provider_execution.py:144-147 | the recorded spend is the sum over the usage file |
| ProviderService.ProviderExecutionService.Execute | clients/python/servicefabric_client/provider_execution.py:29-34 | a pending interrupt is answered and only the policy stored; otherwise the outcome is the one the reports of the first batch call for, safety is kept, and a stop or a completion drops the policy |
| ProviderService.ProviderExecutionService.Resume | clients/python/servicefabric_client/provider_execution.py:70-88 | without a usable decision or a stored policy it raises and changes nothing; otherwise the results named by the decision are cleared and the outcome is that of a call with the stored policy |
| ProviderOutcome.CallOutcome | clients/python/servicefabric_client/provider_execution.py:36-68 | without a batch a call completes, at the ceiling it stops, and otherwise exactly the first batch leaves: results are recorded up to the first that is refused, asks for a contract change or failed, and that one, the spend or a further batch decides the reply |
| ProviderOutcome.ResumeOutcome | clients/python/servicefabric_client/provider_execution.py:70-88 | a retry clears its targets, or every result without any; a target outside the plan raises with those before it cleared |
| ProviderService.ProviderExecutionService.Cancel | clients/python/servicefabric_client/provider_execution.py:113-119 | raises exactly for one task outside the plan, changing nothing; otherwise exactly its targets become cancelled |
| ProviderSafety.StepSafe | clients/python/servicefabric_client/provider_execution.py:36-88 | each call keeps the invariant and dispatches at most one batch |
| ProviderSafety.RunSafe | clients/python/servicefabric_client/provider_execution.py:36-88 | over every sequence of calls no batch leaves while an interrupt is pending or with the spend at the ceiling, only ready tasks leave, and at most one batch leaves per call |
| ProviderSafety.OvershootBound | clients/python/servicefabric_client/provider_execution.py:45-64 | with one ceiling throughout, the recorded spend stays below it plus the cost of the last batch |
| ProviderSafety.ResumeAfterStopRaises | clients/python/servicefabric_client/provider_execution.py:67-77 | after a stop or a completion a direct resume raises and changes nothing |
| ProviderSafety.PolicyOnlyAfterUnfinishedCall | clients/python/servicefabric_client/provider_execution.py:67-88 | exactly when the cursor holds a policy after each call |
| FactoryStore.LoadSection | packages/servicefabric_application_factory_state/src/servicefabric_application_factory_state/store.py:85-107 | a section is loaded as its records in the order of their ids, each once |
| FactoryService.ApplicationFactoryService.ApprovedRecord | clients/python/servicefabric_client/application_factory.py:854-871 | passes exactly when the least recorded decision about the planned subject approves |
| FactoryService.ApplicationFactoryService.Approve | clients/python/servicefabric_client/application_factory.py:324-337 | returns exactly for a decision about the planned subject that is the first one or on file already, each refusal has its stated reason, and later calls never change anything |
| FactoryService.ApplicationFactoryService.BootstrapRun | clients/python/servicefabric_client/application_factory.py:339-393 | returns exactly for an approved run with neither a bootstrap nor files in its repository and steps that all succeed, and records the bootstrap; a failure has its stated reason and leaves the record alone, a late one leaves files behind |
| FactoryService.ApplicationFactoryService.ExecuteRun | clients/python/servicefabric_client/application_factory.py:395-399 | runs exactly when approved and bootstrapped, with the policy of the file, and each refusal has its stated reason |
| FactoryService.ApplicationFactoryService.PlanReady | clients/python/servicefabric_client/application_factory.py:281-308 | records exactly what was planned unless another record exists, which stays; only a different agent plan keeps the policy file from being replaced; after a bootstrap every plan call is refused |
| FactoryService.ApplicationFactoryService.PlanStopped | clients/python/servicefabric_client/application_factory.py:704-741 | the requirements before the first clash are written, and without one all of them and the blocked record |
| FactoryService.ApplicationFactoryService.ReviewCandidate | clients/python/servicefabric_client/application_factory.py:432-498 | returns exactly when every guard holds: approved, bootstrapped, task available and inspected, file about this task, commit and paths, verdict known and permitted, candidate and id not otherwise decided; it records the verdict and reason asked for, or else the inspected ones, on the inspected paths and evidence, accepts only what the inspection accepts, and supersedes every other reviewed commit; each error names its guard |
| FactoryLifecycle.JudgeReviewMeans | clients/python/servicefabric_client/application_factory.py:432-474 | before anything is written a review is let through exactly when it is favourable, and each refusal reports the first guard that fails |
| FactoryService.ApplicationFactoryService.IntegrateRun | clients/python/servicefabric_client/application_factory.py:500-558 | a handoff of the integration is added, never replaced, and only after approval and bootstrap; an error has its stated reason and changes nothing |
| FactoryService.IntegrateCandidates | packages/servicefabric_application_integration/src/servicefabric_application_integration/service.py:59-136 | hands over exactly when the repository is ready, no task is decided twice, every required task has an accepted, known, live and applicable candidate, and every commit can be picked |
| IntegrationTheorems.IntegrateMeans | packages/servicefabric_application_integration/src/servicefabric_application_integration/service.py:59-147 | the exact outcome: the references in task order, the two exceptions and when they are raised, and for a blocked request the first test that fails with the tasks it names |
| FactoryLifecycle.RequiredMembers | clients/python/servicefabric_client/application_factory.py:504-508 | required are exactly the lanes that neither belong to the integration nor assure |
| FactoryLifecycle.RequiredInOrder | clients/python/servicefabric_client/application_factory.py:504-508 | the required tasks come in lane order |
| FactorySafety.RunFollows | clients/python/servicefabric_client/application_factory.py:324-558 | no operation rewrites the plan or withdraws an approval, a bootstrap, a review, a superseded commit or a handoff |
| FactorySafety.RunKeepsGood | clients/python/servicefabric_client/application_factory.py:324-558 | every operation keeps the lifecycle invariant, whatever commands, inspections, repositories and results arrive |
| FactorySafety.LifecycleGates | clients/python/servicefabric_client/application_factory.py:324-399 | in every run bootstrapped implies approved, a review or handoff implies both, and a blocked plan is never approved |
| FactorySafety.DecisionsAreFinal | clients/python/servicefabric_client/application_factory.py:860-871 | an approval state once set never changes, nor do a bootstrap and a handoff |
| FactorySafety.BootstrapOnce | clients/python/servicefabric_client/application_factory.py:340-342 | after a bootstrap every further one is refused and changes nothing |
| FactorySafety.PolicyExecuted | clients/python/servicefabric_client/application_factory.py:281-308 | in every run the record is that of the plan call that created it, and the policy executed is the approved one if and only if the last plan call on its agent plan, refused or not, carries the same policy |
| FactoryWitnesses.UnapprovedPolicyExecutes | clients/python/servicefabric_client/application_factory.py:395-399 | an approved and bootstrapped run in which a refused plan call has put another policy in force |
| FactorySafety.HalfBootstrapIsFinal | clients/python/servicefabric_client/application_factory.py:743-750 | once a bootstrap failed after filling the repository, every later one is refused and the run never becomes bootstrapped |
| FactoryWitnesses.HalfBootstrapIsReachable | clients/python/servicefabric_client/application_factory.py:339-393 | an approved run gets there |
| FactorySafety.IntegrationRecorded | packages/servicefabric_application_factory_state/src/servicefabric_application_factory_state/store.py:70-83 | in every run an integration is recorded if and only if the run is bootstrapped, it yields a handoff and no other is on record |
| FactorySafety.HandoffIsFinal | packages/servicefabric_application_factory_state/src/servicefabric_application_factory_state/store.py:70-83 | once a handoff is on record, blocked or not, a later integration returns if and only if it yields that very handoff |
| FactoryWitnesses.BlockedHandoffRefusesSuccess | clients/python/servicefabric_client/application_factory.py:500-558 | a run whose blocked handoff has the store refuse an integration that would now succeed |
| FactorySafety.SupersededAfterReview | clients/python/servicefabric_client/application_factory.py:475-497 | superseded commits only accumulate, and after a review they contain every other reviewed commit of the task, for good |
| FactorySafety.LiveAfterReview | clients/python/servicefabric_client/application_factory.py:483-496 | a review leaves its task an integrable candidate if and only if the reviewed commit was not superseded before |
| FactoryWitnesses.ReturningStrandsTheTask | clients/python/servicefabric_client/application_factory.py:475-497 | a run whose task went back to an earlier accepted commit, where no repository lets that state be integrated |
| FactorySafety.OneDecisionPerTask | clients/python/servicefabric_client/application_factory.py:519-529 | in every run at most one decision per task is handed over, always on its current commit |
| FactorySafety.IntegrationNeverRaises | packages/servicefabric_application_integration/src/servicefabric_application_integration/service.py:139-147 | in every run the guard against doubly decided tasks is never hit |
| FactorySafety.HandoffIntegratesAccepted | packages/servicefabric_application_integration/src/servicefabric_application_integration/service.py:59-136 | a handoff that was not blocked names, lane by lane, the accepted review of the current commit, which is the only live one of its task and was recorded for an inspection that accepted it |
| FactorySafety.RunDecides | clients/python/servicefabric_client/application_factory.py:432-498 | in every run each recorded review carries the verdict and reason of a reviewing call on what that call inspected, and is an acceptance only if the inspection accepted |
| CandidateReview.ReviewCommit | packages/servicefabric_application_candidate_review/src/servicefabric_application_candidate_review/review.py:48-104 | raises exactly for a commit that cannot be inspected or changes more than 256 paths; otherwise it accepts exactly a sound candidate, escalates a blocked or cancelled task, asks any other for rework, and lists every objection in order |
| CandidateReview.OneDecision | packages/servicefabric_application_candidate_review/src/servicefabric_application_candidate_review/review.py:60-104 | candidate and repository determine the decision |
| CandidateReview.UnderByComponents | packages/servicefabric_application_candidate_review/src/servicefabric_application_candidate_review/review.py:112-118 | a root owns a path exactly when its components, outer slashes aside, begin those of the path |
| CandidateReview.SlashOwnsNothing | packages/servicefabric_application_candidate_review/src/servicefabric_application_candidate_review/review.py:112-118 | a root of slashes only owns no path that names something |
| CandidateReview.HandoffIsSound | packages/servicefabric_application_candidate_review/src/servicefabric_application_candidate_review/review.py:48-104 | in every run inspected by the service, each review a handoff names rests on a candidate with passing evidence and without blockers, all of whose changed paths are allowed and none forbidden |

## Left out

- Git, subprocesses, HTTP and WebSocket servers, process supervision, Docker and Vite builders, framework adapters, the
  command line and the user interfaces: input and output.
- Manifest field parsing in the loaders, the contract models' identifier and version patterns and their trimming of
  surrounding white space: paths and ids are taken as already trimmed.
- `ApplicationPortfolio.verify_source` and the checks of `build_application` on the application definition: they run
  before the modelled pipeline and only add further refusals.
- Symbolic links, permissions, temporary names and rename races: a directory is a map from paths to bytes, an entry
  that is no regular file or that leaves its root is marked as such, and a put is one step.
- Tampering with stored files between operations: verification is proved for arbitrary stored content, the theorems
  over runs are about puts alone.
- JSON numbers are integers or reals, so the rounding, infinities and NaN of floating-point numbers are not modelled;
  the same holds for costs.
- Keywords the validator ignores (such as `not`, `uniqueItems`, `patternProperties` or `$ref`) are no part of the
  standard relation, nor is the demand that `required` and `type` lists have no repetitions.
- Schema-error message texts, and the rendering of a location as a string: locations are lists of steps.
- The module fields that no modelled code reads (readiness, shutdown, expectations), and the shapes of reviewed plans.
- The usage reference that `integrate` adds to the handoff's evidence, and the command whitelist, which `integrate`
  always fills with the very commands it asks for.
- Somebody emptying an application's repository by hand between two bootstraps.
- The wording of a review's reasons; the run id in a decision file, and a file without a decision id, which are
  refused before anything modelled here.
- The provider policy's other limits, prompts and environment names, with the requests' remaining fields.
- Event redaction (`_sanitize`), task status reports, package storage in the component registry.
- Evidence collection, analysis and reporting around the distillation decisions.
- ProviderSafety.OvershootBound: bounds recorded spend, because results after an early interrupt are never recorded.

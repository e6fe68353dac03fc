/** Immutable distillation decisions, and the publication that reads them. */
module Decisions {
  import opened Collections
  import opened Sorting

  datatype Verdict = Approve | Reject | Revise

  datatype Decision = Decision(id: string, candidateRef: string, verdict: Verdict, reason: string, decidedBy: string,
      evidence: seq<string>)

  datatype RecordError = CandidateDecided(candidate: string) | DecisionImmutable(id: string)

  /** The decision files of the store's directory, by file name. */
  type Files = map<string, Decision>

  function FileName(id: string): string {
    id + ".json"
  }

  lemma FileNamesDiffer(a: string, b: string)
    requires FileName(a) == FileName(b)
    ensures a == b
  {
    assert a == FileName(a)[..|a|] && b == FileName(b)[..|FileName(b)| - 5];
    assert |FileName(a)| == |a| + 5;
  }

  ghost predicate Consistent(files: Files) {
    && (forall f :: f in files ==> f == FileName(files[f].id))
    && (forall f, g :: f in files && g in files && files[f].candidateRef == files[g].candidateRef ==> f == g)
  }

  ghost predicate Clashes(files: Files, d: Decision) {
    exists f :: f in files && files[f] != d && (files[f].candidateRef == d.candidateRef || files[f].id == d.id)
  }

  /** Another decision about the same candidate is on file. */
  ghost predicate DecidedDifferently(files: Files, d: Decision) {
    exists f :: f in files && files[f].candidateRef == d.candidateRef && files[f] != d
  }

  /** The files after a call. */
  ghost function After(files: Files, d: Decision): Files {
    if Clashes(files, d) then files else files[FileName(d.id) := d]
  }

  class DecisionStore {
    var files: Files

    constructor ()
      ensures files == map[]
    {
      files := map[];
    }

    /** The scan for another decision about the same candidate. */
    method FindOther(d: Decision) returns (found: bool)
      ensures found <==> DecidedDifferently(files, d)
    {
      var names := SortedSet(files.Keys);
      for i := 0 to |names|
        invariant forall k :: 0 <= k < i ==>
          names[k] in files && (files[names[k]].candidateRef == d.candidateRef ==> files[names[k]] == d)
      {
        assert names[i] in ToSet(names);
        var existing := files[names[i]];
        if existing.candidateRef == d.candidateRef && existing != d {
          return true;
        }
      }
      assert forall f :: f in files ==> f in ToSet(names);
      found := false;
    }

    /** The body of `record`, which runs under the store's exclusive lock. */
    method Record(d: Decision) returns (r: Result<Decision, RecordError>)
      requires Consistent(files)
      modifies this
      ensures Consistent(files)
      ensures files == After(old(files), d)
      ensures r.Ok? <==> !Clashes(old(files), d)
      ensures r.Ok? ==> r.value == d
      ensures r == Err(CandidateDecided(d.candidateRef)) <==> DecidedDifferently(old(files), d)
      ensures r.Err? && !DecidedDifferently(old(files), d) ==> r.error == DecisionImmutable(d.id)
    {
      StepKeepsDecisions(files, d);
      SameIdSameFile(files, d);
      var other := FindOther(d);
      if other {
        return Err(CandidateDecided(d.candidateRef));
      }
      var target := FileName(d.id);
      if target in files {
        if files[target] != d {
          return Err(DecisionImmutable(d.id));
        }
        assert files == files[target := d];
        return Ok(files[target]);
      }
      files := files[target := d];
      r := Ok(d);
    }

    /** `list`: the decisions in file-name order. */
    method List() returns (decisions: seq<Decision>)
      requires Consistent(files)
      ensures |decisions| == |files.Keys|
      ensures decisions == Listing(files)
    {
      var names := SortedSet(files.Keys);
      DistinctCardinality(names);
      decisions := [];
      for i := 0 to |names|
        invariant |decisions| == i && forall k :: 0 <= k < i ==> names[k] in files && decisions[k] == files[names[k]]
      {
        assert names[i] in ToSet(names);
        decisions := decisions + [files[names[i]]];
      }
      ListedByName(files, names, decisions);
    }
  }

  ghost function Listing(files: Files): (r: seq<Decision>)
    ensures forall d :: d in r <==> exists f :: f in files && files[f] == d
  {
    var names := SortedSet(files.Keys);
    assert forall f :: f in names <==> f in ToSet(names);
    var r := seq(|names|, i requires 0 <= i < |names| => files[names[i]]);
    assert forall i :: 0 <= i < |names| ==> names[i] in files && r[i] == files[names[i]];
    assert forall f :: f in files ==> f in names;
    r
  }

  lemma ListedByName(files: Files, names: seq<string>, decisions: seq<Decision>)
    requires names == SortedSet(files.Keys) && |decisions| == |names|
    requires forall k :: 0 <= k < |names| ==> names[k] in files && decisions[k] == files[names[k]]
    ensures decisions == Listing(files)
  {
  }

  lemma SameIdSameFile(files: Files, d: Decision)
    requires Consistent(files)
    ensures forall f :: f in files ==> (files[f].id == d.id <==> f == FileName(d.id))
  {
    forall f | f in files ensures files[f].id == d.id <==> f == FileName(d.id) {
      if f == FileName(d.id) {
        FileNamesDiffer(files[f].id, d.id);
      }
    }
  }

  // ---------------------------------------------------------------- every run of the store

  ghost function RunRecords(files: Files, ds: seq<Decision>): Files
    decreases |ds|
  {
    if ds == [] then files else RunRecords(After(files, ds[0]), ds[1..])
  }

  /** Nothing recorded is altered or dropped. */
  ghost predicate Extends(old_: Files, now: Files) {
    forall f :: f in old_ ==> f in now && now[f] == old_[f]
  }

  lemma StepKeepsDecisions(files: Files, d: Decision)
    requires Consistent(files)
    ensures Consistent(After(files, d)) && Extends(files, After(files, d))
  {
    SameIdSameFile(files, d);
    if !Clashes(files, d) {
      assert FileName(d.id) in files ==> files[FileName(d.id)] == d;
    }
  }

  /** Over every sequence of calls: one decision per candidate and per id, none altered or dropped. */
  lemma {:induction false} RunKeepsDecisions(files: Files, ds: seq<Decision>)
    requires Consistent(files)
    ensures Consistent(RunRecords(files, ds)) && Extends(files, RunRecords(files, ds))
    decreases |ds|
  {
    if ds != [] {
      StepKeepsDecisions(files, ds[0]);
      RunKeepsDecisions(After(files, ds[0]), ds[1..]);
    }
  }

  /** A call that returned keeps returning, without changing the store, whatever happened in between. */
  lemma RecordIsIdempotent(files: Files, d: Decision, ds: seq<Decision>)
    requires Consistent(files) && !Clashes(files, d)
    ensures !Clashes(RunRecords(After(files, d), ds), d)
    ensures After(RunRecords(After(files, d), ds), d) == RunRecords(After(files, d), ds)
  {
    StepKeepsDecisions(files, d);
    var now := RunRecords(After(files, d), ds);
    RunKeepsDecisions(After(files, d), ds);
    assert FileName(d.id) in After(files, d);
    assert now[FileName(d.id)] == d;
    SameIdSameFile(now, d);
    assert now == now[FileName(d.id) := d];
  }

  /** A refused decision stays refused: the candidate or the id is settled for good. */
  lemma RefusalIsFinal(files: Files, d: Decision, ds: seq<Decision>)
    requires Consistent(files) && Clashes(files, d)
    ensures Clashes(RunRecords(files, ds), d)
  {
    RunKeepsDecisions(files, ds);
    var f :| f in files && files[f] != d && (files[f].candidateRef == d.candidateRef || files[f].id == d.id);
    assert RunRecords(files, ds)[f] == files[f];
  }

  // ---------------------------------------------------------------- publication

  /** The candidates of an analysis, by group; proposals are never published. */
  datatype Analysis = Analysis(
    capabilities: seq<string>, techniques: seq<string>, engineering: seq<string>, blueprints: seq<string>,
      systems: seq<string>)
  {
    function Publishable(): seq<string> {
      capabilities + techniques + engineering
    }

    function Candidates(): seq<string> {
      capabilities + techniques + engineering + blueprints + systems
    }
  }

  /** Publishing a candidate through its catalog: the published reference, or None when the catalog raises. */
  type Catalog = string -> Option<string>

  ghost predicate Approved(files: Files, candidate: string) {
    exists f :: f in files && files[f].candidateRef == candidate && files[f].verdict == Approve
  }

  ghost function ApprovedOf(files: Files, candidates: seq<string>): seq<string> {
    if candidates == [] then []
    else
      var last := |candidates| - 1;
      ApprovedOf(files, candidates[..last]) + if Approved(files, candidates[last]) then [candidates[last]] else []
  }

  ghost predicate AllPublish(catalog: Catalog, candidates: seq<string>) {
    forall c :: c in candidates ==> catalog(c).Some?
  }

  ghost function Refs(catalog: Catalog, candidates: seq<string>): (r: seq<string>)
    requires AllPublish(catalog, candidates)
    ensures |r| == |candidates|
  {
    seq(|candidates|, i requires 0 <= i < |candidates| => catalog(candidates[i]).value)
  }

  /** The decision table `by_candidate` restricted to the analysis. */
  ghost predicate Indexes(table: map<string, Decision>, files: Files, candidates: seq<string>) {
    forall c :: c in candidates ==> (c in table && table[c].verdict == Approve <==> Approved(files, c))
  }

  /** One of the three publication loops. */
  method PublishGroup(catalog: Catalog, table: map<string, Decision>, group: seq<string>, ghost files: Files)
      returns (r: Option<seq<string>>)
    requires Indexes(table, files, group)
    ensures r.Some? <==> AllPublish(catalog, ApprovedOf(files, group))
    ensures r.Some? ==> r.value == Refs(catalog, ApprovedOf(files, group))
  {
    var published: seq<string> := [];
    for i := 0 to |group|
      invariant AllPublish(catalog, ApprovedOf(files, group[..i])) &&
        published == Refs(catalog, ApprovedOf(files, group[..i]))
    {
      var c := group[i];
      assert c in group;
      assert group[..i + 1][..i] == group[..i];
      if c in table && table[c].verdict == Approve {
        var ref := catalog(c);
        if ref.None? {
          ApprovedMembers(files, group);
          assert c in ApprovedOf(files, group);
          return None;
        }
        published := published + [ref.value];
      }
    }
    assert group[..|group|] == group;
    r := Some(published);
  }

  lemma {:induction false} ApprovedMembers(files: Files, candidates: seq<string>)
    ensures forall c :: c in ApprovedOf(files, candidates) <==> c in candidates && Approved(files, c)
  {
    if candidates != [] {
      var last := |candidates| - 1;
      ApprovedMembers(files, candidates[..last]);
      assert candidates == candidates[..last] + [candidates[last]];
    }
  }

  lemma {:induction false} ApprovedAppend(files: Files, a: seq<string>, b: seq<string>)
    ensures ApprovedOf(files, a + b) == ApprovedOf(files, a) + ApprovedOf(files, b)
  {
    if b == [] {
      assert a + b == a;
    } else {
      var last := |b| - 1;
      assert (a + b)[..|a| + last] == a + b[..last];
      ApprovedAppend(files, a, b[..last]);
    }
  }

  /** Decisions of the store that concern the analysis, as a table by candidate. */
  method IndexDecisions(decisions: seq<Decision>, candidates: seq<string>, ghost files: Files)
      returns (table: map<string, Decision>)
    requires Consistent(files) && forall d :: d in decisions <==> exists f :: f in files && files[f] == d
    ensures Indexes(table, files, candidates)
  {
    table := map[];
    for i := 0 to |decisions|
      invariant forall c :: c in table ==> table[c] in decisions && table[c].candidateRef == c
      invariant forall k :: 0 <= k < i && decisions[k].candidateRef in candidates ==> decisions[k].candidateRef in table
    {
      assert decisions[i] in decisions;
      if decisions[i].candidateRef in candidates {
        table := table[decisions[i].candidateRef := decisions[i]];
      }
    }
    forall c | c in candidates ensures c in table && table[c].verdict == Approve <==> Approved(files, c) {
      if f :| f in files && files[f].candidateRef == c && files[f].verdict == Approve {
        assert files[f] in decisions;
        var k :| 0 <= k < |decisions| && decisions[k] == files[f];
        assert table[c] in decisions;
      }
    }
  }

  lemma RefsAppend(catalog: Catalog, a: seq<string>, b: seq<string>)
    ensures AllPublish(catalog, a + b) <==> AllPublish(catalog, a) && AllPublish(catalog, b)
    ensures AllPublish(catalog, a + b) ==> Refs(catalog, a + b) == Refs(catalog, a) + Refs(catalog, b)
  {
    assert forall c :: c in a + b <==> c in a || c in b;
  }

  lemma PublishableParts(files: Files, analysis: Analysis, catalog: Catalog)
    ensures var a, b, c := ApprovedOf(files, analysis.capabilities), ApprovedOf(files, analysis.techniques),
      ApprovedOf(files, analysis.engineering);
            var all := ApprovedOf(files, analysis.Publishable());
            && (AllPublish(catalog, all) <==>
                AllPublish(catalog, a) && AllPublish(catalog, b) && AllPublish(catalog, c))
            && (AllPublish(catalog, all) ==>
                Refs(catalog, all) == Refs(catalog, a) + Refs(catalog, b) + Refs(catalog, c))
  {
    ApprovedAppend(files, analysis.capabilities, analysis.techniques);
    ApprovedAppend(files, analysis.capabilities + analysis.techniques, analysis.engineering);
    var a, b, c := ApprovedOf(files, analysis.capabilities), ApprovedOf(files, analysis.techniques),
      ApprovedOf(files, analysis.engineering);
    RefsAppend(catalog, a, b);
    RefsAppend(catalog, a + b, c);
  }

  lemma IndexesPart(table: map<string, Decision>, files: Files, part: seq<string>, whole: seq<string>)
    requires Indexes(table, files, whole) && forall c :: c in part ==> c in whole
    ensures Indexes(table, files, part)
  {
  }

  /** `publish`: the sorted references, or None when a catalog raises. */
  method Publish(store: DecisionStore, analysis: Analysis, catalog: Catalog) returns (r: Option<seq<string>>)
    requires Consistent(store.files)
    ensures r.Some? <==> AllPublish(catalog, ApprovedOf(store.files, analysis.Publishable()))
    ensures r.Some? ==> r.value == Sort(Refs(catalog, ApprovedOf(store.files, analysis.Publishable())), StrLe)
  {
    ghost var files := store.files;
    var decisions := store.List();
    var table := IndexDecisions(decisions, analysis.Candidates(), files);
    PublishableParts(files, analysis, catalog);
    IndexesPart(table, files, analysis.capabilities, analysis.Candidates());
    IndexesPart(table, files, analysis.techniques, analysis.Candidates());
    IndexesPart(table, files, analysis.engineering, analysis.Candidates());
    var capabilities := PublishGroup(catalog, table, analysis.capabilities, files);
    if capabilities.None? {
      return None;
    }
    var techniques := PublishGroup(catalog, table, analysis.techniques, files);
    if techniques.None? {
      return None;
    }
    var engineering := PublishGroup(catalog, table, analysis.engineering, files);
    if engineering.None? {
      return None;
    }
    r := Some(Sort(capabilities.value + techniques.value + engineering.value, StrLe));
  }

  ghost predicate PublishedFrom(files: Files, analysis: Analysis, catalog: Catalog, refs: seq<string>) {
    AllPublish(catalog, ApprovedOf(files, analysis.Publishable()))
    && refs == Sort(Refs(catalog, ApprovedOf(files, analysis.Publishable())), StrLe)
  }

  /** Publication emits a reference if and only if it is the reference of an approved publishable candidate. */
  lemma PublishesExactlyApproved(files: Files, analysis: Analysis, catalog: Catalog, refs: seq<string>, ref: string)
    requires PublishedFrom(files, analysis, catalog, refs)
    ensures ref in refs <==> exists c :: c in analysis.Publishable() && Approved(files, c) && catalog(c) == Some(ref)
  {
    var chosen := ApprovedOf(files, analysis.Publishable());
    ApprovedMembers(files, analysis.Publishable());
    var listed := Refs(catalog, chosen);
    SameMultisetSameElements(refs, listed);
    assert ref in refs <==> ref in ToSet(refs);
    assert ref in listed <==> ref in ToSet(listed);
    if i :| 0 <= i < |listed| && listed[i] == ref {
      assert chosen[i] in chosen && catalog(chosen[i]) == Some(ref);
    }
    if c :| c in analysis.Publishable() && Approved(files, c) && catalog(c) == Some(ref) {
      var i :| 0 <= i < |chosen| && chosen[i] == c;
      assert listed[i] == ref;
    }
  }

  lemma {:induction false} ApprovedGrows(files: Files, more: Files, candidates: seq<string>, catalog: Catalog)
    requires Extends(files, more)
    requires AllPublish(catalog, ApprovedOf(files, candidates)) && AllPublish(catalog, ApprovedOf(more, candidates))
    ensures multiset(Refs(catalog, ApprovedOf(files, candidates))) <=
      multiset(Refs(catalog, ApprovedOf(more, candidates)))
  {
    if candidates != [] {
      var last := |candidates| - 1;
      var c := candidates[last];
      var small, big := ApprovedOf(files, candidates[..last]), ApprovedOf(more, candidates[..last]);
      var x, y := if Approved(files, c) then [c] else [], if Approved(more, c) then [c] else [];
      RefsAppend(catalog, small, x);
      RefsAppend(catalog, big, y);
      ApprovedGrows(files, more, candidates[..last], catalog);
      if Approved(files, c) {
        var f :| f in files && files[f].candidateRef == c && files[f].verdict == Approve;
        assert more[f] == files[f];
      }
      assert multiset(Refs(catalog, x)) <= multiset(Refs(catalog, y));
    }
  }

  /** For a fixed analysis the published collection only grows as decisions are added. */
  lemma PublicationGrows(files: Files, ds: seq<Decision>, analysis: Analysis, catalog: Catalog, refs: seq<string>,
      later: seq<string>)
    requires Consistent(files)
    requires PublishedFrom(files, analysis, catalog, refs) &&
      PublishedFrom(RunRecords(files, ds), analysis, catalog, later)
    ensures multiset(refs) <= multiset(later)
  {
    RunKeepsDecisions(files, ds);
    ApprovedGrows(files, RunRecords(files, ds), analysis.Publishable(), catalog);
  }
}

/** `CandidateReviewService`: task evidence and an inspected candidate commit become one decision. */
module CandidateReview {
  import opened Collections
  import opened FactoryLifecycle
  import opened FactorySafety
  import opened Text

  datatype ResultStatus = Waiting | Running | Success | Failure | Blocking | Cancelled

  datatype Evidence = Evidence(exitCode: nat, artifact: Option<string>)

  /** The task as planned: the paths its lane may and may not change. */
  datatype PlannedTask = PlannedTask(id: string, allowed: seq<string>, forbidden: seq<string>)

  datatype ReportedResult = ReportedResult(
    taskId: string, status: ResultStatus, paths: seq<string>, commit: Option<string>, evidence: seq<Evidence>,
      blockers: seq<string>)

  /** The read-only Git commands; None where one fails. */
  datatype Inspector = Inspector(
    resolve: string -> Option<string>, changed: string -> Option<seq<string>>, parents: string -> Option<nat>)

  datatype Candidate = Candidate(task: PlannedTask, result: ReportedResult, git: Inspector)

  datatype Objection =
    | MergeCommit | ForeignResult | NotSuccessful(status: ResultStatus) | Misreported | NoEvidence | FailedEvidence
    | OpenBlockers | OutsideAllowlist | ForbiddenPath

  datatype CandidateDecision = CandidateDecision(
    taskId: string, commit: string, verdict: ReviewVerdict, objections: seq<Objection>, paths: seq<string>,
      evidence: seq<string>)

  const MAXIMUM_PATHS := 256

  // ---------------------------------------------------------------- path ownership

  /** `_is_owned_path` for one root. */
  predicate Under(path: string, root: string) {
    Strip(path, '/') == Strip(root, '/') || Strip(root, '/') + "/" <= Strip(path, '/')
  }

  method IsOwnedPath(path: string, roots: seq<string>) returns (owned: bool)
    ensures owned <==> OwnedBy(path, roots)
  {
    for i := 0 to |roots|
      invariant forall k :: 0 <= k < i ==> !Under(path, roots[k])
    {
      if Under(path, roots[i]) {
        return true;
      }
    }
    owned := false;
  }

  function Parts(path: string): seq<string> {
    Split(Strip(path, '/'), '/')
  }

  ghost predicate OwnedBy(path: string, roots: seq<string>) {
    exists k :: 0 <= k < |roots| && Under(path, roots[k])
  }

  /** A root owns a path exactly when its components, outer slashes aside, begin those of the path. */
  lemma UnderByComponents(path: string, root: string)
    ensures Under(path, root) <==> Parts(root) <= Parts(path)
  {
    ExtendsByComponents(Strip(root, '/'), Strip(path, '/'), '/');
  }

  /** A root of slashes only, which might read as the whole repository, owns no path that names something. */
  lemma SlashOwnsNothing(path: string, root: string)
    requires Strip(root, '/') == "" && Strip(path, '/') != ""
    ensures !Under(path, root)
  {
    var before, after := StripMeans(path, '/');
    assert Strip(path, '/')[0] == path[before];
  }

  // ---------------------------------------------------------------- what a review is to find

  predicate IsFullSha(s: string) {
    |s| == 40 && forall i :: 0 <= i < 40 ==> '0' <= s[i] <= '9' || 'a' <= s[i] <= 'f'
  }

  /** The reported commit is a full hash that names itself, and Git tells its paths and parents. */
  ghost predicate Inspectable(c: Candidate) {
    && c.result.commit.Some?
    && var sha := c.result.commit.value;
       && IsFullSha(sha) && c.git.resolve(sha) == Some(sha) && c.git.changed(sha).Some? && c.git.parents(sha).Some?
  }

  function NonEmpty(lines: seq<string>): (r: seq<string>)
    ensures |r| <= |lines| && forall l :: l in r <==> l in lines && l != ""
  {
    if lines == [] then []
    else
      var last := |lines| - 1;
      assert lines == lines[..last] + [lines[last]];
      NonEmpty(lines[..last]) + if lines[last] != "" then [lines[last]] else []
  }

  /** The changed paths come in the order Git lists them. */
  lemma {:induction false} NonEmptyInOrder(before: seq<string>, after: seq<string>)
    ensures NonEmpty(before + after) == NonEmpty(before) + NonEmpty(after)
  {
    if after == [] {
      assert before + after == before;
    } else {
      var last := |after| - 1;
      assert (before + after)[..|before| + last] == before + after[..last];
      NonEmptyInOrder(before, after[..last]);
    }
  }

  ghost function ActualPaths(c: Candidate): seq<string>
    requires Inspectable(c)
  {
    NonEmpty(c.git.changed(c.result.commit.value).value)
  }

  ghost predicate Objects(c: Candidate, o: Objection)
    requires Inspectable(c)
  {
    match o
    case MergeCommit => c.git.parents(c.result.commit.value).value > 1
    case ForeignResult => c.result.taskId != c.task.id
    case NotSuccessful(status) => status == c.result.status && status != Success
    case Misreported => c.result.paths != ActualPaths(c)
    case NoEvidence => c.result.evidence == []
    case FailedEvidence => exists e :: e in c.result.evidence && e.exitCode != 0
    case OpenBlockers => c.result.blockers != []
    case OutsideAllowlist => exists p :: p in ActualPaths(c) && !OwnedBy(p, c.task.allowed)
    case ForbiddenPath => exists p :: p in ActualPaths(c) && OwnedBy(p, c.task.forbidden)
  }

  function Rank(o: Objection): nat {
    match o
    case MergeCommit => 0
    case ForeignResult => 1
    case NotSuccessful(_) => 2
    case Misreported => 3
    case NoEvidence => 4
    case FailedEvidence => 5
    case OpenBlockers => 6
    case OutsideAllowlist => 7
    case ForbiddenPath => 8
  }

  /** Every objection below `rank`, once and in order. */
  ghost predicate Noted(c: Candidate, objections: seq<Objection>, rank: nat)
    requires Inspectable(c)
  {
    && (forall o :: o in objections <==> Objects(c, o) && Rank(o) < rank)
    && forall i, j :: 0 <= i < j < |objections| ==> Rank(objections[i]) < Rank(objections[j])
  }

  /** Nothing speaks against the candidate. */
  ghost predicate Sound(c: Candidate) {
    && Inspectable(c) && c.git.parents(c.result.commit.value).value <= 1
    && c.result.taskId == c.task.id && c.result.status == Success && c.result.paths == ActualPaths(c)
    && c.result.evidence != [] && (forall e :: e in c.result.evidence ==> e.exitCode == 0) && c.result.blockers == []
    && forall p :: p in c.result.paths ==> OwnedBy(p, c.task.allowed) && !OwnedBy(p, c.task.forbidden)
  }

  lemma SoundMeans(c: Candidate)
    requires Inspectable(c)
    ensures Sound(c) <==> forall o :: !Objects(c, o)
  {
    if forall o :: !Objects(c, o) {
      assert !Objects(c, MergeCommit) && !Objects(c, ForeignResult) && !Objects(c, NotSuccessful(c.result.status));
      assert !Objects(c, Misreported) && !Objects(c, NoEvidence) && !Objects(c, FailedEvidence);
      assert !Objects(c, OpenBlockers) && !Objects(c, OutsideAllowlist) && !Objects(c, ForbiddenPath);
    }
  }

  /** The evidence files, in the order of the evidence. */
  function Artifacts(evidence: seq<Evidence>): (r: seq<string>)
    ensures |r| <= |evidence| && forall a :: a in r <==> exists e :: e in evidence && e.artifact == Some(a)
  {
    if evidence == [] then []
    else
      var last := |evidence| - 1;
      assert evidence == evidence[..last] + [evidence[last]];
      Artifacts(evidence[..last]) + if evidence[last].artifact.Some? then [evidence[last].artifact.value] else []
  }

  lemma {:induction false} ArtifactsInOrder(before: seq<Evidence>, after: seq<Evidence>)
    ensures Artifacts(before + after) == Artifacts(before) + Artifacts(after)
  {
    if after == [] {
      assert before + after == before;
    } else {
      var last := |after| - 1;
      assert (before + after)[..|before| + last] == before + after[..last];
      ArtifactsInOrder(before, after[..last]);
    }
  }

  /**
    `d` is the decision on the candidate: acceptance exactly when it is sound, and otherwise escalation of a blocked or
    cancelled task and rework of any other; with every objection, and what was inspected.
   */
  ghost predicate Reviews(c: Candidate, d: CandidateDecision) {
    && Inspectable(c) && d.taskId == c.task.id && c.result.commit == Some(d.commit)
    && (d.verdict == Accept <==> Sound(c))
    && (d.verdict == Escalate <==> c.result.status.Blocking? || c.result.status.Cancelled?)
    && d.verdict != Refuse
    && Noted(c, d.objections, 9)
    && d.paths == ActualPaths(c) && d.evidence == Artifacts(c.result.evidence)
  }

  // ---------------------------------------------------------------- the review

  method Note(ghost c: Candidate, before: seq<Objection>, objects: bool, o: Objection)
      returns (objections: seq<Objection>)
    requires Inspectable(c) && Noted(c, before, Rank(o)) && (objects <==> Objects(c, o))
    requires o.NotSuccessful? ==> o.status == c.result.status
    ensures Noted(c, objections, Rank(o) + 1)
  {
    objections := if objects then before + [o] else before;
    forall x ensures x in objections <==> Objects(c, x) && Rank(x) < Rank(o) + 1 {
      assert Objects(c, x) && Rank(x) == Rank(o) ==> x == o;
    }
  }

  method CollectPaths(lines: seq<string>) returns (paths: seq<string>)
    ensures paths == NonEmpty(lines)
  {
    paths := [];
    for i := 0 to |lines|
      invariant paths == NonEmpty(lines[..i])
    {
      assert lines[..i + 1][..i] == lines[..i];
      if lines[i] != "" {
        paths := paths + [lines[i]];
      }
    }
    assert lines[..|lines|] == lines;
  }

  method CollectArtifacts(evidence: seq<Evidence>) returns (artifacts: seq<string>)
    ensures artifacts == Artifacts(evidence)
  {
    artifacts := [];
    for i := 0 to |evidence|
      invariant artifacts == Artifacts(evidence[..i])
    {
      assert evidence[..i + 1][..i] == evidence[..i];
      if evidence[i].artifact.Some? {
        artifacts := artifacts + [evidence[i].artifact.value];
      }
    }
    assert evidence[..|evidence|] == evidence;
  }

  /** Whether some path is outside, and whether some path is inside, the given roots. */
  method ComparePaths(paths: seq<string>, roots: seq<string>) returns (outside: bool, inside: bool)
    ensures outside <==> exists p :: p in paths && !OwnedBy(p, roots)
    ensures inside <==> exists p :: p in paths && OwnedBy(p, roots)
  {
    outside, inside := false, false;
    for i := 0 to |paths|
      invariant outside <==> exists p :: p in paths[..i] && !OwnedBy(p, roots)
      invariant inside <==> exists p :: p in paths[..i] && OwnedBy(p, roots)
    {
      assert paths[..i + 1] == paths[..i] + [paths[i]];
      var owned := IsOwnedPath(paths[i], roots);
      outside, inside := outside || !owned, inside || owned;
    }
    assert paths[..|paths|] == paths;
  }

  method SomeFailed(evidence: seq<Evidence>) returns (failed: bool)
    ensures failed <==> exists e :: e in evidence && e.exitCode != 0
  {
    for i := 0 to |evidence|
      invariant forall e :: e in evidence[..i] ==> e.exitCode == 0
    {
      assert evidence[..i + 1] == evidence[..i] + [evidence[i]];
      if evidence[i].exitCode != 0 {
        assert evidence[i] in evidence;
        return true;
      }
    }
    assert evidence[..|evidence|] == evidence;
    failed := false;
  }

  /** The reasons the commit's parents and the reported result give. */
  method ReportObjections(c: Candidate, paths: seq<string>, parents: nat) returns (objections: seq<Objection>)
    requires Inspectable(c) && paths == ActualPaths(c) && c.git.parents(c.result.commit.value) == Some(parents)
    ensures Noted(c, objections, 7)
  {
    objections := Note(c, [], parents > 1, MergeCommit);
    objections := Note(c, objections, c.result.taskId != c.task.id, ForeignResult);
    objections := Note(c, objections, c.result.status != Success, NotSuccessful(c.result.status));
    objections := Note(c, objections, c.result.paths != paths, Misreported);
    objections := Note(c, objections, c.result.evidence == [], NoEvidence);
    var failed := SomeFailed(c.result.evidence);
    objections := Note(c, objections, failed, FailedEvidence);
    objections := Note(c, objections, c.result.blockers != [], OpenBlockers);
  }

  /** All reasons against an inspected candidate. */
  method CollectObjections(c: Candidate, paths: seq<string>, parents: nat) returns (objections: seq<Objection>)
    requires Inspectable(c) && paths == ActualPaths(c) && c.git.parents(c.result.commit.value) == Some(parents)
    ensures Noted(c, objections, 9)
  {
    objections := ReportObjections(c, paths, parents);
    var outside, _ := ComparePaths(paths, c.task.allowed);
    objections := Note(c, objections, outside, OutsideAllowlist);
    var _, inside := ComparePaths(paths, c.task.forbidden);
    objections := Note(c, objections, inside, ForbiddenPath);
  }

  /** `review`. It raises for a commit that cannot be inspected, and for more paths than a decision can hold. */
  method ReviewCommit(c: Candidate) returns (r: Option<CandidateDecision>)
    ensures r.Some? <==> Inspectable(c) && |ActualPaths(c)| <= MAXIMUM_PATHS
    ensures r.Some? ==> Reviews(c, r.value)
  {
    var commit := c.result.commit;
    if commit.None? || !IsFullSha(commit.value) || c.git.resolve(commit.value) != commit {
      return None;
    }
    var lines, parents := c.git.changed(commit.value), c.git.parents(commit.value);
    if lines.None? || parents.None? {
      return None;
    }
    var paths := CollectPaths(lines.value);
    var objections := CollectObjections(c, paths, parents.value);
    if |paths| > MAXIMUM_PATHS {
      return None;
    }
    var status := c.result.status;
    var verdict :=
      if objections == [] then Accept else if status.Blocking? || status.Cancelled? then Escalate else Rework;
    NoObjection(c, objections);
    var artifacts := CollectArtifacts(c.result.evidence);
    r := Some(CandidateDecision(c.task.id, commit.value, verdict, objections, paths, artifacts));
  }

  lemma NoObjection(c: Candidate, objections: seq<Objection>)
    requires Inspectable(c) && Noted(c, objections, 9)
    ensures objections == [] <==> Sound(c)
  {
    SoundMeans(c);
    if objections != [] {
      assert objections[0] in objections;
    }
  }

  /** The decision is determined by the candidate. */
  lemma OneDecision(c: Candidate, a: CandidateDecision, b: CandidateDecision)
    requires Reviews(c, a) && Reviews(c, b)
    ensures a == b
  {
    SameNoted(c, a.objections, b.objections, 9);
  }

  lemma {:induction false} SameNoted(c: Candidate, a: seq<Objection>, b: seq<Objection>, rank: nat)
    requires Inspectable(c) && Noted(c, a, rank) && Noted(c, b, rank)
    ensures a == b
  {
    BothNoted(c, a, b, rank);
    if a != [] {
      var last, end := |a| - 1, |b| - 1;
      LastsAgree(c, a, b, rank);
      NotedBefore(c, a, rank);
      NotedBefore(c, b, rank);
      SameNoted(c, a[..last], b[..end], Rank(a[last]));
      assert a == a[..last] + [a[last]] && b == b[..end] + [b[end]];
    }
  }

  lemma BothNoted(c: Candidate, a: seq<Objection>, b: seq<Objection>, rank: nat)
    requires Inspectable(c) && Noted(c, a, rank) && Noted(c, b, rank)
    ensures a == [] <==> b == []
  {
    assert a != [] ==> a[0] in b;
    assert b != [] ==> b[0] in a;
  }

  lemma LastsAgree(c: Candidate, a: seq<Objection>, b: seq<Objection>, rank: nat)
    requires Inspectable(c) && Noted(c, a, rank) && Noted(c, b, rank) && a != [] && b != []
    ensures a[|a| - 1] == b[|b| - 1]
  {
    assert a[|a| - 1] in a && b[|b| - 1] in b;
    LastIsGreatest(c, b, rank, a[|a| - 1]);
    LastIsGreatest(c, a, rank, b[|b| - 1]);
  }

  lemma LastIsGreatest(c: Candidate, a: seq<Objection>, rank: nat, o: Objection)
    requires Inspectable(c) && Noted(c, a, rank) && Objects(c, o) && Rank(o) < rank
    ensures a != [] && (o == a[|a| - 1] || Rank(o) < Rank(a[|a| - 1]))
  {
    assert o in a;
  }

  lemma NotedBefore(c: Candidate, a: seq<Objection>, rank: nat)
    requires Inspectable(c) && Noted(c, a, rank) && a != []
    ensures Noted(c, a[..|a| - 1], Rank(a[|a| - 1]))
  {
    var last := |a| - 1;
    forall o ensures o in a[..last] <==> Objects(c, o) && Rank(o) < Rank(a[last]) {
      if o in a {
        var i :| 0 <= i < |a| && a[i] == o;
        assert i < last <==> Rank(o) < Rank(a[last]);
      }
    }
  }

  // ---------------------------------------------------------------- reviewed runs

  /** The inspection is what the service says about the candidate, in whatever words. */
  ghost predicate Inspects(c: Candidate, found: Inspection) {
    exists d :: Reviews(c, d) && found.decision == d.verdict && found.paths == d.paths && found.evidence == d.evidence
  }

  /** The candidate stands for the task and its stored result. */
  ghost predicate StandsFor(c: Candidate, taskId: string, commit: Option<string>) {
    c.task.id == taskId && c.result.commit == commit
  }

  /** A review that inspects anything inspects the task's current candidate through the service. */
  ghost predicate StepInspects(s: State, op: Operation) {
    op.DoReview? && op.inspection.Some? && op.taskId in s.results ==>
      exists c :: StandsFor(c, op.taskId, s.results[op.taskId].commit) && Inspects(c, op.inspection.value)
  }

  ghost predicate RunInspects(s: State, ops: seq<Operation>)
    decreases |ops|
  {
    ops == [] || (StepInspects(s, ops[0]) && RunInspects(Apply(s, ops[0]), ops[1..]))
  }

  /** A candidate of the decided task and commit was inspected, with these paths, and was sound if it was accepted. */
  ghost predicate Examined(c: Candidate, d: Review) {
    && StandsFor(c, d.taskId, Some(d.commit)) && Inspectable(c)
    && d.paths == ActualPaths(c) && d.evidence == Artifacts(c.result.evidence) && (d.verdict == Accept ==> Sound(c))
  }

  lemma StepExamines(s: State, op: Operation, id: string)
    requires StepInspects(s, op) && id in Apply(s, op).reviews && id !in s.reviews
    ensures exists c :: Examined(c, Apply(s, op).reviews[id])
  {
    StepRecords(s, op, id);
    var c :| StandsFor(c, op.taskId, s.results[op.taskId].commit) && Inspects(c, op.inspection.value);
    assert Examined(c, Apply(s, op).reviews[id]);
  }

  lemma {:induction false} RunExamines(s: State, ops: seq<Operation>, id: string)
    requires RunInspects(s, ops) && id in Run(s, ops).reviews && id !in s.reviews
    ensures exists c :: Examined(c, Run(s, ops).reviews[id])
    decreases |ops|
  {
    var t := Apply(s, ops[0]);
    if id in t.reviews {
      StepExamines(s, ops[0], id);
      RunFollows(t, ops[1..]);
    } else {
      RunExamines(t, ops[1..], id);
    }
  }

  /**
    In every run whose inspections are the service's, each review a handoff names rests on a sound candidate: a commit
    with at most one parent whose result succeeded with passing evidence and no blocker, all of whose changed paths
    are allowed and none forbidden.
   */
  lemma HandoffIsSound(ops: seq<Operation>, repo: Repository, i: nat)
    requires RunInspects(FRESH, ops)
    requires var r := IntegrateStep(Run(FRESH, ops), repo).1; r.Ok? && !r.value.status.Stopped?
    requires i < |IntegrateStep(Run(FRESH, ops), repo).1.value.reviewRefs|
    ensures var s, ref := Run(FRESH, ops), IntegrateStep(Run(FRESH, ops), repo).1.value.reviewRefs[i];
      ref in s.reviews && exists c :: Examined(c, s.reviews[ref]) && Sound(c)
  {
    RunKeepsGood(FRESH, ops);
    var s := Run(FRESH, ops);
    HandoffRefs(s, repo);
    GoodHandoff(s, repo, i);
    RunExamines(FRESH, ops, IntegrateStep(s, repo).1.value.reviewRefs[i]);
  }
}

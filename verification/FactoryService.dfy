/** `ApplicationFactoryService`: the commands that rewrite the planning record and write to the lifecycle store. */
module FactoryService {
  import opened Collections
  import opened FactoryLifecycle
  import opened FactorySafety
  import opened FactoryStore
  import opened IntegrationTheorems
  import opened Sorting

  // ---------------------------------------------------------------- scans over loaded records

  /** Entry `i` is the first one about the recorded subject. */
  ghost predicate FirstAbout(record: Record, approvals: seq<Approval>, i: nat) {
    && i < |approvals| && record.subjectRef == Some(approvals[i].subjectRef)
    && forall j :: 0 <= j < i ==> record.subjectRef != Some(approvals[j].subjectRef)
  }

  /** The scan of `_approval_state`: the first loaded decision about the recorded subject. */
  method ScanApprovals(record: Record, approvals: seq<Approval>) returns (first: Option<Approval>)
    ensures first.None? <==> forall d :: d in approvals ==> record.subjectRef != Some(d.subjectRef)
    ensures first.Some? ==> exists i: nat :: FirstAbout(record, approvals, i) && approvals[i] == first.value
  {
    for i := 0 to |approvals|
      invariant forall j :: 0 <= j < i ==> record.subjectRef != Some(approvals[j].subjectRef)
    {
      if record.subjectRef == Some(approvals[i].subjectRef) {
        assert FirstAbout(record, approvals, i);
        return Some(approvals[i]);
      }
    }
    first := None;
  }

  /** The first loaded decision about the subject is the one with the least id. */
  lemma FirstIsLeast(record: Record, section: map<string, Approval>, i: nat)
    requires FirstAbout(record, Listed(section), i)
    ensures Relevant(record, section) != {} && section[Least(Relevant(record, section))] == Listed(section)[i]
  {
    var ids, relevant := SortedIds(section), Relevant(record, section);
    assert ids[i] in relevant;
    var least := Least(relevant);
    var k :| 0 <= k < |ids| && ids[k] == least;
    assert Listed(section)[k] == section[least];
    StrLeIsTotalOrder();
    assert StrLe(ids[i], ids[k]) && StrLe(least, ids[i]);
  }

  lemma NoneIsRelevant(record: Record, section: map<string, Approval>)
    requires forall d :: d in Listed(section) ==> record.subjectRef != Some(d.subjectRef)
    ensures Relevant(record, section) == {}
  {
    ListedMembers(section);
  }

  /** The scan of `review` over the loaded reviews: earlier commits of the task, and decisions on the same candidate. */
  method ScanReviews(reviews: seq<Review>, r: Review) returns (earlier: set<string>, same: bool, again: bool)
    ensures earlier == set d | d in reviews && d.taskId == r.taskId && d.commit != r.commit :: d.commit
    ensures same <==> exists d :: d in reviews && SameCandidate(d, r)
    ensures again <==> r in reviews
  {
    earlier, same, again := {}, false, false;
    for i := 0 to |reviews|
      invariant earlier == set d | d in reviews[..i] && d.taskId == r.taskId && d.commit != r.commit :: d.commit
      invariant same <==> exists d :: d in reviews[..i] && SameCandidate(d, r)
      invariant again <==> r in reviews[..i]
    {
      var d := reviews[i];
      assert reviews[..i + 1] == reviews[..i] + [d];
      if d.taskId == r.taskId {
        if d.commit != r.commit {
          earlier := earlier + {d.commit};
        } else {
          same := true;
          again := again || d == r;
        }
      }
    }
    assert reviews[..|reviews|] == reviews;
  }

  lemma ScanMatchesSection(section: map<string, Review>, r: Review)
    ensures EarlierCommits(section, r) ==
      (set d | d in Listed(section) && d.taskId == r.taskId && d.commit != r.commit :: d.commit)
    ensures (exists d :: d in Listed(section) && SameCandidate(d, r)) <==>
      exists id :: id in section && SameCandidate(section[id], r)
    ensures r in Listed(section) <==> r in section.Values
  {
    ListedMembers(section);
  }

  lemma RequiredStep(lanes: seq<EngineeringLane>, i: nat)
    requires i < |lanes|
    ensures RequiredLanes(lanes[i..]) ==
      (if !lanes[i].integrationOwned && !lanes[i].assurance then [lanes[i].id] else []) + RequiredLanes(lanes[i + 1..])
  {
    var rest := lanes[i..];
    assert rest[0] == lanes[i] && rest[1..] == lanes[i + 1..];
  }

  /** The filter of `integrate` that keeps the lanes with reviewed candidates. */
  method CollectRequired(lanes: seq<EngineeringLane>) returns (required: seq<string>)
    ensures required == RequiredLanes(lanes)
  {
    required := [];
    for i := 0 to |lanes|
      invariant RequiredLanes(lanes) == required + RequiredLanes(lanes[i..])
    {
      RequiredStep(lanes, i);
      if !lanes[i].integrationOwned && !lanes[i].assurance {
        required := required + [lanes[i].id];
      }
    }
  }

  function Keep(reviews: seq<Review>, keep: Review -> bool): seq<Review> {
    if reviews == [] then [] else (if keep(reviews[0]) then [reviews[0]] else []) + Keep(reviews[1..], keep)
  }

  lemma KeepStep(reviews: seq<Review>, keep: Review -> bool, i: nat)
    requires i < |reviews|
    ensures Keep(reviews[i..], keep) == (if keep(reviews[i]) then [reviews[i]] else []) + Keep(reviews[i + 1..], keep)
  {
    var rest := reviews[i..];
    assert rest[0] == reviews[i] && rest[1..] == reviews[i + 1..];
  }

  lemma KeepMore(reviews: seq<Review>, keep: Review -> bool, kept: seq<Review>, i: nat)
    requires i < |reviews| && Keep(reviews, keep) == kept + Keep(reviews[i..], keep)
    ensures Keep(reviews, keep) ==
      (if keep(reviews[i]) then kept + [reviews[i]] else kept) + Keep(reviews[i + 1..], keep)
  {
    KeepStep(reviews, keep, i);
  }

  function IsCurrent(results: map<string, TaskResult>, required: seq<string>): Review -> bool {
    (d: Review) => d.taskId in required && d.taskId in results && results[d.taskId].commit == Some(d.commit)
  }

  lemma {:induction false} KeepSelects(s: State, required: seq<string>, ids: seq<string>)
    requires forall i :: 0 <= i < |ids| ==> ids[i] in s.reviews
    requires forall id :: id in ids ==> id in s.reviews
    ensures Keep(Values(s.reviews, ids), IsCurrent(s.results, required)) == SelectCurrent(s, required, ids)
  {
    if ids != [] {
      assert Values(s.reviews, ids)[1..] == Values(s.reviews, ids[1..]);
      KeepSelects(s, required, ids[1..]);
    }
  }

  method FilterReviews(loaded: seq<Review>, keep: Review -> bool) returns (kept: seq<Review>)
    ensures kept == Keep(loaded, keep)
  {
    kept := [];
    assert loaded[0..] == loaded;
    for i := 0 to |loaded|
      invariant Keep(loaded, keep) == kept + Keep(loaded[i..], keep)
    {
      KeepMore(loaded, keep, kept, i);
      if keep(loaded[i]) {
        kept := kept + [loaded[i]];
      }
    }
  }

  /** The filter of `integrate` that keeps the reviews of current commits. */
  method CollectCurrent(results: map<string, TaskResult>, loaded: seq<Review>, required: seq<string>)
      returns (current: seq<Review>)
    ensures current == Keep(loaded, IsCurrent(results, required))
  {
    current := FilterReviews(loaded, IsCurrent(results, required));
  }

  // ---------------------------------------------------------------- the integration authority

  /** `_decisions_by_task` */
  method IndexByTask(decisions: seq<Review>) returns (table: Option<map<string, Review>>)
    ensures table == ByTask(decisions)
  {
    var byTask: map<string, Review> := map[];
    for i := 0 to |decisions|
      invariant ByTask(decisions[..i]) == Some(byTask)
    {
      assert decisions[..i + 1][..i] == decisions[..i];
      if decisions[i].taskId in byTask {
        ByTaskFails(decisions, i + 1);
        return None;
      }
      byTask := byTask[decisions[i].taskId := decisions[i]];
    }
    assert decisions[..|decisions|] == decisions;
    table := Some(byTask);
  }

  lemma {:induction false} ByTaskFails(decisions: seq<Review>, i: nat)
    requires i <= |decisions| && ByTask(decisions[..i]).None?
    ensures ByTask(decisions).None?
    decreases |decisions| - i
  {
    if i < |decisions| {
      assert decisions[..i + 1][..i] == decisions[..i];
      ByTaskFails(decisions, i + 1);
    } else {
      assert decisions[..i] == decisions;
    }
  }

  /** The comprehensions over the required tasks. */
  method FilterTasks(tasks: seq<string>, meets: string -> bool) returns (r: seq<string>)
    ensures r == Select(tasks, meets)
  {
    r := [];
    for i := 0 to |tasks|
      invariant r == Select(tasks[..i], meets)
    {
      assert tasks[..i + 1][..i] == tasks[..i];
      if meets(tasks[i]) {
        r := r + [tasks[i]];
      }
    }
    assert tasks[..|tasks|] == tasks;
  }

  method RefuseReviews(required: seq<string>, table: map<string, Review>, repo: Repository)
      returns (r: Option<BlockReason>)
    ensures r == CheckReviews(required, table, repo)
  {
    var missing := FilterTasks(required, t => t !in table);
    if missing != [] {
      return Some(ReviewsMissing(missing));
    }
    var rejected := FilterTasks(required, t => t in table && table[t].verdict != Accept);
    if rejected != [] {
      return Some(NotAccepted(rejected));
    }
    var unavailable := FilterTasks(required, t => t in table && !repo.known(table[t].commit));
    r := if unavailable != [] then Some(CommitsUnavailable(unavailable)) else None;
  }

  method FirstProblem(accepted: seq<Review>, superseded: set<string>, base: string, repo: Repository)
      returns (problem: Option<BlockReason>)
    ensures problem == CheckCandidates(accepted, superseded, base, repo)
  {
    for i := 0 to |accepted|
      invariant CheckCandidates(accepted[i..], superseded, base, repo) ==
        CheckCandidates(accepted, superseded, base, repo)
    {
      var d := accepted[i];
      assert accepted[i..][0] == d && accepted[i..][1..] == accepted[i + 1..];
      if d.commit in superseded {
        return Some(Superseded(d.taskId));
      }
      if repo.integrated(d.commit) {
        return Some(AlreadyIntegrated(d.taskId));
      }
      if !repo.isAncestor(base, d.commit) {
        return Some(NotApplicable(d.taskId));
      }
      if repo.changedPaths(d.commit, base) != d.paths {
        return Some(PathsDiffer(d.taskId));
      }
    }
    problem := None;
  }

  /** The cherry-picks, one by one; the first that fails raises. */
  method PickAll(accepted: seq<Review>, repo: Repository) returns (ok: bool)
    ensures ok <==> !exists d :: d in accepted && !repo.picks(d.commit)
  {
    for i := 0 to |accepted|
      invariant forall d :: d in accepted[..i] ==> repo.picks(d.commit)
    {
      assert accepted[..i + 1] == accepted[..i] + [accepted[i]];
      if !repo.picks(accepted[i].commit) {
        return false;
      }
    }
    assert accepted[..|accepted|] == accepted;
    ok := true;
  }

  /**
    The bounded integration authority, check by check. It hands over exactly when repository, reviews and candidates
    are in order and every commit can be picked; a handoff that blocks carries the first test that failed.
   */
  method IntegrateCandidates(required: seq<string>, decisions: seq<Review>, boot: Bootstrap, superseded: set<string>,
      repo: Repository)
    returns (h: Result<Handoff, FactoryError>)
    ensures h == Integrate(required, decisions, boot, superseded, repo)
    ensures var ready := ReadyToPick(required, decisions, boot, superseded, repo);
      && (h.Ok? && !h.value.status.Stopped? <==> ready && AllPicked(required, decisions, repo))
      && (h == Err(PickFailed) <==> ready && !AllPicked(required, decisions, repo))
      && (h == Err(DuplicateDecision) <==> RepositoryReady(boot, repo) && !OnePerTask(decisions))
      && (h.Ok? || h.error.PickFailed? || h.error.DuplicateDecision?)
    ensures h.Ok? && !h.value.status.Stopped? ==> Integrates(required, decisions, repo, h.value)
    ensures h.Ok? && h.value.status.Stopped? ==> Blocks(required, decisions, boot, superseded, repo, h.value)
  {
    IntegrateMeans(required, decisions, boot, superseded, repo);
    if boot.integrationBranch == "main" {
      return Ok(Halted(NotAutomatic));
    }
    if !repo.clean {
      return Ok(Halted(NotClean));
    }
    if repo.branch != boot.integrationBranch {
      return Ok(Halted(WrongBranch));
    }
    if boot.baseCommit == "" || repo.head != boot.baseCommit {
      return Ok(Halted(BaselineDiffers));
    }
    var table := IndexByTask(decisions);
    if table.None? {
      return Err(DuplicateDecision);
    }
    var refused := RefuseReviews(required, table.value, repo);
    if refused.Some? {
      return Ok(Halted(refused.value));
    }
    var accepted := Pick(required, table.value);
    var problem := FirstProblem(accepted, superseded, boot.baseCommit, repo);
    if problem.Some? {
      return Ok(Halted(problem.value));
    }
    var picked := PickAll(accepted, repo);
    if !picked {
      return Err(PickFailed);
    }
    var status := if repo.verified then Succeeded else Failed;
    h := Ok(Handoff(status, Some(repo.integrationCommit), Refs(accepted), None, repo.evidence));
  }

  // ---------------------------------------------------------------- the service

  class ApplicationFactoryService {
    const lifecycle: FactoryLifecycleStore
    var record: Option<Record>
    var populated: bool
    var results: map<string, TaskResult>
    var agentPlan: Option<string>
    var policyFile: Option<string>

    ghost function Snapshot(): State
      reads this, lifecycle
    {
      State(record, lifecycle.approvals, lifecycle.reviews, lifecycle.unmet, lifecycle.handoff, populated, results,
        agentPlan, policyFile)
    }

    constructor ()
      ensures Snapshot() == FRESH && fresh(lifecycle)
    {
      lifecycle := new FactoryLifecycleStore();
      record, populated, results := None, false, map[];
      agentPlan, policyFile := None, None;
    }

    /** `_write_record` with `create`: an existing record is kept. */
    method WriteNewRecord(value: Record) returns (e: Option<FactoryError>)
      modifies this`record
      ensures (Snapshot(), e) == CreateRecord(old(Snapshot()), value)
    {
      if record.Some? {
        return if record.value == value then None else Some(DifferentPlan);
      }
      record := Some(value);
      e := None;
    }

    /** `save_plan` of the agent run store keeps the first plan. */
    method SaveAgentPlan(plan: string) returns (ok: bool)
      modifies this`agentPlan
      ensures ok <==> old(agentPlan).None? || old(agentPlan) == Some(plan)
      ensures agentPlan == if ok then Some(plan) else old(agentPlan)
    {
      if agentPlan.Some? {
        return agentPlan.value == plan;
      }
      agentPlan := Some(plan);
      ok := true;
    }

    /**
      `plan`. Whatever the outcome an existing record stays; only a different agent plan keeps the policy file from
      being replaced, not a different record.
     */
    method PlanReady(plan: FactoryPlan) returns (e: Option<FactoryError>)
      modifies this`record, this`agentPlan, this`policyFile
      ensures (Snapshot(), e) == PlanStep(old(Snapshot()), plan)
      ensures e == Some(DifferentAgentPlan) <==> old(agentPlan).Some? && old(agentPlan) != Some(plan.agentPlan)
      ensures agentPlan == if e == Some(DifferentAgentPlan) then old(agentPlan) else Some(plan.agentPlan)
      ensures policyFile == if e == Some(DifferentAgentPlan) then old(policyFile) else Some(plan.policy)
      ensures e.None? || e == Some(DifferentAgentPlan) || e == Some(DifferentPlan)
      ensures e.None? ==> record.Some? && PlansAs(record.value, plan)
      ensures e == Some(DifferentPlan) ==> old(record).Some? && !PlansAs(old(record).value, plan)
      ensures old(record).Some? || e == Some(DifferentAgentPlan) ==> record == old(record)
      ensures IsBootstrapped(old(Snapshot())) ==> e.Some?
    {
      var ok := SaveAgentPlan(plan.agentPlan);
      if !ok {
        return Some(DifferentAgentPlan);
      }
      policyFile := Some(plan.policy);
      e := WriteNewRecord(PlannedRecord(plan));
    }

    /**
      `_blocked_plan`: requirements are written one by one, and the first clash stops it and leaves the earlier ones in
      place; without a clash the blocked record is kept or created.
     */
    method PlanStopped(payload: string, items: seq<Unmet>) returns (e: Option<FactoryError>)
      modifies this`record, lifecycle`unmet
      ensures (Snapshot(), e) == PlanBlocked(old(Snapshot()), payload, items)
      ensures e == Some(DifferentUnmet) <==> exists i: nat :: FirstClash(old(lifecycle.unmet), items, i)
      ensures forall i: nat :: FirstClash(old(lifecycle.unmet), items, i) ==>
        Written(old(lifecycle.unmet), items, i, lifecycle.unmet) && record == old(record)
      ensures e != Some(DifferentUnmet) ==> Written(old(lifecycle.unmet), items, |items|, lifecycle.unmet)
      ensures e.None? ==> record.Some? && StopsAs(record.value, payload)
      ensures e.Some? && e != Some(DifferentUnmet) ==>
        e.value == DifferentPlan && old(record).Some? && record == old(record) && !StopsAs(old(record).value, payload)
    {
      RecordUnmetMeans(lifecycle.unmet, items);
      for i := 0 to |items|
        invariant Snapshot() == old(Snapshot()).(unmet := lifecycle.unmet)
        invariant RecordUnmet(lifecycle.unmet, items[i..]) == RecordUnmet(old(lifecycle.unmet), items)
      {
        assert items[i..][0] == items[i] && items[i..][1..] == items[i + 1..];
        var ok := lifecycle.RecordUnmet(items[i]);
        if !ok {
          return Some(DifferentUnmet);
        }
      }
      e := WriteNewRecord(BlockedRecord(payload));
    }

    /** `_approved_record`, by scanning the loaded approvals. */
    method ApprovedRecord() returns (e: Option<FactoryError>)
      ensures e.None? <==> IsApproved(Snapshot())
      ensures e.Some? ==> e.value == if record.None? then NoRecord else NotApproved
    {
      if record.None? {
        return Some(NoRecord);
      }
      var loaded := LoadSection(lifecycle.approvals);
      var first := ScanApprovals(record.value, loaded);
      if first.Some? {
        ghost var i: nat :| FirstAbout(record.value, loaded, i) && loaded[i] == first.value;
        FirstIsLeast(record.value, lifecycle.approvals, i);
      } else {
        NoneIsRelevant(record.value, lifecycle.approvals);
      }
      e := if first.Some? && first.value.verdict == ApprovalVerdict.Approve then None else Some(NotApproved);
    }

    /**
      `approve`. Returns exactly for a decision about the planned subject that is on file already, or is the first
      one; then it is on file, and nothing else has changed. A refusal changes nothing.
     */
    method Approve(d: Approval) returns (e: Option<FactoryError>)
      modifies lifecycle`approvals
      ensures (Snapshot(), e) == ApproveStep(old(Snapshot()), d)
      ensures e.None? <==> Approvable(old(Snapshot()), d)
      ensures e.Some? ==> ApprovalFault(old(Snapshot()), d, e.value)
      ensures e.None? ==> lifecycle.approvals == old(lifecycle.approvals)[d.id := d]
      ensures e.Some? ==> lifecycle.approvals == old(lifecycle.approvals)
      ensures ApprovalsOk(old(Snapshot())) ==> ApprovalsOk(Snapshot())
      ensures ApprovalsOk(old(Snapshot())) && old(lifecycle.approvals) != map[] ==> Snapshot() == old(Snapshot())
      ensures ApprovalsOk(old(Snapshot())) && old(lifecycle.approvals) != map[] ==>
        (e.None? <==> d in lifecycle.approvals.Values)
    {
      ApproveOutcome(Snapshot(), d);
      if record.None? {
        return Some(NoRecord);
      }
      if record.value.subjectRef != Some(d.subjectRef) {
        return Some(WrongSubject);
      }
      var loaded := LoadSection(lifecycle.approvals);
      LoadedSection(lifecycle.approvals, d);
      if loaded != [] && d !in loaded {
        return Some(AlreadyDecided);
      }
      var ok := lifecycle.RecordApproval(d);
      e := if ok then None else Some(DifferentApproval);
    }

    /**
      `bootstrap`. Returns exactly for an approved run that has neither a bootstrap nor files in its repository and
      whose steps all succeed; only then is the record rewritten. A step that fails late leaves the files behind.
     */
    method BootstrapRun(attempt: Attempt) returns (e: Option<FactoryError>)
      modifies this`record, this`populated
      ensures (Snapshot(), e) == BootstrapStep(old(Snapshot()), attempt)
      ensures e.None? <==>
        IsApproved(old(Snapshot())) && !IsBootstrapped(old(Snapshot())) && !old(populated) && attempt.Succeeds?
      ensures e.Some? ==> BootstrapFault(old(Snapshot()), attempt, e.value)
      ensures IsBootstrapped(Snapshot()) <==> IsBootstrapped(old(Snapshot())) || e.None?
      ensures e.None? ==> record == Some(old(record).value.(bootstrap := Some(attempt.bootstrap)))
      ensures e.Some? ==> record == old(record)
      ensures populated <==> old(populated) || (IsApproved(old(Snapshot())) && !IsBootstrapped(old(Snapshot()))
                                                && !attempt.FailsEarly?)
    {
      e := ApprovedRecord();
      if e.Some? {
        return;
      }
      if record.value.bootstrap.Some? {
        return Some(AlreadyBootstrapped);
      }
      if populated {
        return Some(RepositoryNotEmpty);
      }
      if attempt.FailsEarly? {
        return Some(BootstrapFailed);
      }
      populated := true;
      if attempt.FailsLate? {
        return Some(BootstrapFailed);
      }
      record := Some(record.value.(bootstrap := Some(attempt.bootstrap)));
    }

    /**
      `execute`: refused before approval and bootstrap; task results are all that changes, and the policy handed over
      is the one in the file.
     */
    method ExecuteRun(newResults: map<string, TaskResult>) returns (e: Option<FactoryError>, policy: Option<string>)
      modifies this`results
      ensures policy == if e.None? then policyFile else None
      ensures (Snapshot(), e) == ExecuteStep(old(Snapshot()), newResults)
      ensures e.None? <==> IsApproved(Snapshot()) && IsBootstrapped(Snapshot())
      ensures e.Some? ==> NotReady(old(Snapshot()), e.value)
      ensures results == if e.None? then newResults else old(results)
    {
      policy := None;
      e := ApprovedRecord();
      if e.Some? {
        return;
      }
      if record.value.bootstrap.None? {
        return Some(NotBootstrapped), None;
      }
      results, policy := newResults, policyFile;
    }

    /** The reasons of `review` to refuse a decision before any state is read for writing. */
    method ProposeReview(taskId: string, raw: RawReview, inspection: Option<Inspection>)
        returns (r: Result<Review, FactoryError>)
      ensures r.Ok? ==>
        IsApproved(Snapshot()) && IsBootstrapped(Snapshot()) && AboutCurrent(Snapshot(), taskId, r.value)
      ensures var decided := r.Ok? && DecidedOtherwise(Snapshot(), r.value);
        JudgeReview(Snapshot(), taskId, raw, inspection) == if decided then Err(AlreadyReviewed) else r
    {
      var e := ApprovedRecord();
      if e.Some? {
        return Err(e.value);
      }
      if record.value.bootstrap.None? {
        return Err(NotBootstrapped);
      }
      if raw.taskId.Some? && raw.taskId.value != taskId {
        return Err(WrongTask);
      }
      if taskId !in record.value.tasks || taskId !in results || taskId !in record.value.bootstrap.value.lanes {
        return Err(TaskUnavailable);
      }
      var candidate := results[taskId].commit;
      if inspection.None? || candidate.None? {
        return Err(NotInspectable);
      }
      var found := inspection.value;
      if raw.commit.Some? && raw.commit.value != candidate.value {
        return Err(WrongCommit);
      }
      if raw.paths.Some? && raw.paths.value != found.paths {
        return Err(WrongPaths);
      }
      if raw.requested.Unrecognised? {
        return Err(InvalidVerdict);
      }
      var verdict := if raw.requested.Named? then raw.requested.verdict else found.decision;
      if verdict == Accept && found.decision != Accept {
        return Err(AcceptanceNotPermitted);
      }
      var reason := if raw.reason.Some? then raw.reason.value else found.reason;
      r := Ok(Review(raw.id, taskId, candidate.value, verdict, reason, found.paths, found.evidence));
    }

    /**
      `review`. It returns exactly for a reviewable candidate without another decision and an id without another
      record; the decision is then the caller's on what was inspected, on file about the task's current commit, and
      every other reviewed commit of the task is superseded. A refused one leaves the lifecycle store alone, and the
      superseded commits grow at most.
     */
    method ReviewCandidate(taskId: string, raw: RawReview, inspection: Option<Inspection>)
        returns (r: Result<Review, FactoryError>)
      modifies this`record, lifecycle`reviews
      ensures r.Ok? <==> exists d: Review ::
        Favourable(old(Snapshot()), taskId, raw, inspection, d) && !Refuses(old(lifecycle.reviews), d.id, d)
      ensures r.Ok? ==> Favourable(old(Snapshot()), taskId, raw, inspection, r.value)
      ensures r.Ok? && r.value.verdict == Accept ==> inspection.value.decision == Accept
      ensures r.Err? && r.error != DifferentReview ==>
        ReviewFault(old(Snapshot()), taskId, raw, inspection, r.error)
      ensures (Snapshot(), r) == ReviewStep(old(Snapshot()), taskId, raw, inspection)
      ensures r.Ok? ==> AboutCurrent(Snapshot(), taskId, r.value) && OthersSuperseded(Snapshot(), r.value)
      ensures r.Ok? ==> lifecycle.reviews == old(lifecycle.reviews)[r.value.id := r.value]
      ensures r.Ok? ==> !Refuses(old(lifecycle.reviews), r.value.id, r.value)
      ensures r.Err? ==>
        lifecycle.reviews == old(lifecycle.reviews) && (r.error != DifferentReview ==> record == old(record))
    {
      ghost var before := Snapshot();
      r := PerformReview(taskId, raw, inspection);
      ReviewOutcome(before, taskId, raw, inspection);
      ReviewReturns(before, taskId, raw, inspection);
    }

    /** The tests, the scan of the recorded reviews, and the writes. */
    method PerformReview(taskId: string, raw: RawReview, inspection: Option<Inspection>)
        returns (r: Result<Review, FactoryError>)
      modifies this`record, lifecycle`reviews
      ensures (Snapshot(), r) == ReviewStep(old(Snapshot()), taskId, raw, inspection)
    {
      r := ProposeReview(taskId, raw, inspection);
      if r.Err? {
        return;
      }
      var loaded := LoadSection(lifecycle.reviews);
      var earlier, same, again := ScanReviews(loaded, r.value);
      ScanMatchesSection(lifecycle.reviews, r.value);
      if same && !again {
        return Err(AlreadyReviewed);
      }
      r := ApplyReview(r.value, earlier);
    }

    /** The two writes of `review`: the record when the superseded commits grow, then the lifecycle store. */
    method ApplyReview(d: Review, earlier: set<string>) returns (r: Result<Review, FactoryError>)
      requires record.Some? && earlier == EarlierCommits(lifecycle.reviews, d)
      modifies this`record, lifecycle`reviews
      ensures (Snapshot(), r) == RecordReviewStep(old(Snapshot()), d)
    {
      var superseded := record.value.superseded + earlier;
      if superseded != record.value.superseded {
        record := Some(record.value.(superseded := superseded));
      }
      var ok := lifecycle.RecordReview(d);
      r := if ok then Ok(d) else Err(DifferentReview);
    }

    /** The integration of the required tasks' current reviews; nothing is recorded yet. */
    method IntegrateCurrent(repo: Repository) returns (r: Result<Handoff, FactoryError>)
      requires IsBootstrapped(Snapshot())
      ensures r == Integration(Snapshot(), repo)
    {
      var required := CollectRequired(record.value.lanes);
      var loaded := LoadSection(lifecycle.reviews);
      var current := CollectCurrent(results, loaded, required);
      KeepSelects(Snapshot(), required, SortedIds(lifecycle.reviews));
      r := IntegrateCandidates(required, current, record.value.bootstrap.value, record.value.superseded, repo);
    }

    /**
      `integrate`. Only a handoff can be added, never replaced; an error leaves everything as it was; and in a good
      state the guard against doubly decided tasks is not hit.
     */
    method IntegrateRun(repo: Repository) returns (r: Result<Handoff, FactoryError>)
      modifies lifecycle`handoff
      ensures (Snapshot(), r) == IntegrateStep(old(Snapshot()), repo)
      ensures r.Err? ==> Snapshot() == old(Snapshot())
      ensures r.Ok? ==>
        lifecycle.handoff == Some(r.value) && (old(lifecycle.handoff).Some? ==> old(lifecycle.handoff) == Some(r.value))
      ensures r.Ok? ==> IsApproved(old(Snapshot())) && IsBootstrapped(old(Snapshot()))
      ensures r.Ok? ==> Integration(old(Snapshot()), repo) == r
      ensures r.Err? ==> IntegrationFault(old(Snapshot()), repo, r.error)
      ensures ReviewsOk(old(Snapshot())) ==> r != Err(DuplicateDecision)
    {
      ghost var before := Snapshot();
      IntegrateOutcome(before, repo);
      var e := ApprovedRecord();
      if e.Some? {
        return Err(e.value);
      }
      if record.value.bootstrap.None? {
        return Err(NotBootstrapped);
      }
      r := IntegrateCurrent(repo);
      if r.Err? {
        return;
      }
      var ok := lifecycle.RecordHandoff(r.value);
      if !ok {
        return Err(DifferentHandoff);
      }
    }
  }

  // ---------------------------------------------------------------- what the commands record and refuse

  /** The record waits for approval of exactly what was planned, and nothing has happened to it yet. */
  ghost predicate PlansAs(r: Record, plan: FactoryPlan) {
    && r.planning.PendingApproval? && r.subjectRef == Some(plan.subjectRef) && r.payload == plan.payload
    && r.lanes == plan.lanes && r.tasks == plan.tasks && r.bootstrap.None? && r.superseded == {}
  }

  /** The record is blocked, and there is nothing to approve or to execute. */
  ghost predicate StopsAs(r: Record, payload: string) {
    && r.planning.Blocked? && r.subjectRef.None? && r.payload == payload
    && r.lanes == [] && r.tasks == {} && r.bootstrap.None? && r.superseded == {}
  }

  /** Requirement `i` has another content on file, or another content earlier in the list. */
  ghost predicate UnmetClash(unmet: map<string, string>, items: seq<Unmet>, i: nat) {
    && i < |items|
    && (Refuses(unmet, items[i].id, items[i].content)
        || exists j :: 0 <= j < i && items[j].id == items[i].id && items[j].content != items[i].content)
  }

  ghost predicate FirstClash(unmet: map<string, string>, items: seq<Unmet>, i: nat) {
    UnmetClash(unmet, items, i) && forall j: nat :: j < i ==> !UnmetClash(unmet, items, j)
  }

  /** Exactly the first `n` requirements are added to those on file. */
  ghost predicate Written(before: map<string, string>, items: seq<Unmet>, n: nat, after: map<string, string>) {
    && n <= |items|
    && (forall id :: id in before ==> id in after && after[id] == before[id])
    && (forall i :: 0 <= i < n ==> items[i].id in after && after[items[i].id] == items[i].content)
    && forall id :: id in after ==> id in before || exists i :: 0 <= i < n && items[i].id == id
  }

  lemma ClashAfterFirst(unmet: map<string, string>, items: seq<Unmet>, i: nat)
    requires i + 1 < |items| && !Refuses(unmet, items[0].id, items[0].content)
    ensures UnmetClash(unmet[items[0].id := items[0].content], items[1..], i) <==> UnmetClash(unmet, items, i + 1)
  {
    var rest := items[1..];
    assert forall j :: 0 <= j < |rest| ==> rest[j] == items[j + 1];
    if UnmetClash(unmet, items, i + 1) && !Refuses(unmet, items[i + 1].id, items[i + 1].content) {
      var j :| 0 <= j < i + 1 && items[j].id == items[i + 1].id && items[j].content != items[i + 1].content;
      assert j > 0 ==> rest[j - 1] == items[j];
    }
    var head, next := items[0], items[i + 1];
    assert head.id == next.id && head.content != next.content ==> UnmetClash(unmet, items, i + 1);
  }

  lemma {:induction false} RecordUnmetMeans(unmet: map<string, string>, items: seq<Unmet>)
    ensures var (after, ok) := RecordUnmet(unmet, items);
      && (ok <==> forall i: nat :: !FirstClash(unmet, items, i))
      && (ok ==> Written(unmet, items, |items|, after))
      && forall i: nat :: FirstClash(unmet, items, i) ==> Written(unmet, items, i, after)
  {
    var n := WritesUpTo(unmet, items);
    assert n < |items| ==> FirstClash(unmet, items, n);
    assert forall i: nat :: FirstClash(unmet, items, i) ==> i == n;
  }

  /** The number of requirements written before a clash, if there is one. */
  lemma {:induction false} WritesUpTo(unmet: map<string, string>, items: seq<Unmet>) returns (n: nat)
    ensures var (after, ok) := RecordUnmet(unmet, items);
      && Written(unmet, items, n, after) && (ok <==> n == |items|)
    ensures n < |items| ==> UnmetClash(unmet, items, n)
    ensures forall i: nat :: i < n ==> !UnmetClash(unmet, items, i)
    decreases |items|
  {
    if items == [] || Refuses(unmet, items[0].id, items[0].content) {
      n := 0;
    } else {
      var next, rest := unmet[items[0].id := items[0].content], items[1..];
      n := WritesUpTo(next, rest);
      WrittenAfterFirst(unmet, items, n, RecordUnmet(next, rest).0);
      forall i: nat | i < n + 1 ensures !UnmetClash(unmet, items, i) {
        if i > 0 {
          ClashAfterFirst(unmet, items, i - 1);
        }
      }
      if n < |rest| {
        ClashAfterFirst(unmet, items, n);
      }
      n := n + 1;
    }
  }

  lemma WrittenAfterFirst(unmet: map<string, string>, items: seq<Unmet>, n: nat, after: map<string, string>)
    requires items != [] && !Refuses(unmet, items[0].id, items[0].content)
    requires Written(unmet[items[0].id := items[0].content], items[1..], n, after)
    ensures Written(unmet, items, n + 1, after)
  {
    var next, rest := unmet[items[0].id := items[0].content], items[1..];
    assert forall i :: 0 <= i < |rest| ==> rest[i] == items[i + 1];
    assert forall i :: 0 < i < |items| ==> items[i] == rest[i - 1];
    forall id | id in unmet ensures id in after && after[id] == unmet[id] {
      assert id in next && next[id] == unmet[id];
    }
    forall id | id in after && id !in unmet ensures exists i :: 0 <= i < n + 1 && items[i].id == id {
      if id != items[0].id {
        var i :| 0 <= i < n && rest[i].id == id;
        assert items[i + 1].id == id;
      }
    }
  }

  /** The run is not there, not approved, or not bootstrapped, in this order. */
  ghost predicate NotReady(s: State, e: FactoryError) {
    match e
    case NoRecord => s.record.None?
    case NotApproved => s.record.Some? && !IsApproved(s)
    case NotBootstrapped => IsApproved(s) && !IsBootstrapped(s)
    case _ => false
  }

  ghost predicate ApprovalFault(s: State, d: Approval, e: FactoryError) {
    match e
    case NoRecord => s.record.None?
    case WrongSubject => s.record.Some? && s.record.value.subjectRef != Some(d.subjectRef)
    case AlreadyDecided =>
      && s.record.Some? && s.record.value.subjectRef == Some(d.subjectRef)
      && s.approvals != map[] && forall id :: id in s.approvals ==> s.approvals[id] != d
    case DifferentApproval =>
      && s.record.Some? && s.record.value.subjectRef == Some(d.subjectRef)
      && (exists id :: id in s.approvals && s.approvals[id] == d) && Refuses(s.approvals, d.id, d)
    case _ => false
  }

  ghost predicate BootstrapFault(s: State, attempt: Attempt, e: FactoryError) {
    match e
    case AlreadyBootstrapped => IsApproved(s) && IsBootstrapped(s)
    case RepositoryNotEmpty => IsApproved(s) && !IsBootstrapped(s) && s.populated
    case BootstrapFailed => IsApproved(s) && !IsBootstrapped(s) && !s.populated && !attempt.Succeeds?
    case _ => NotReady(s, e) && e != NotBootstrapped
  }

  ghost predicate IntegrationFault(s: State, repo: Repository, e: FactoryError) {
    match e
    case DuplicateDecision => IsApproved(s) && IsBootstrapped(s) && Integration(s, repo) == Err(e)
    case PickFailed => IsApproved(s) && IsBootstrapped(s) && Integration(s, repo) == Err(e)
    case DifferentHandoff =>
      && IsApproved(s) && IsBootstrapped(s) && Integration(s, repo).Ok?
      && s.handoff.Some? && s.handoff != Some(Integration(s, repo).value)
    case _ => NotReady(s, e)
  }

  /** The decision is about the planned subject, is the first one or on file already, and its id is not taken. */
  ghost predicate Approvable(s: State, d: Approval) {
    && s.record.Some? && s.record.value.subjectRef == Some(d.subjectRef)
    && (s.approvals == map[] || d in s.approvals.Values) && !Refuses(s.approvals, d.id, d)
  }

  /** The review speaks about the current commit of the task. */
  ghost predicate AboutCurrent(s: State, taskId: string, r: Review) {
    r.taskId == taskId && taskId in s.results && s.results[taskId].commit == Some(r.commit)
  }

  /** Every other reviewed commit of the task is superseded. */
  ghost predicate OthersSuperseded(s: State, r: Review) {
    s.record.Some? && forall id :: id in s.reviews ==> OtherSuperseded(s, r, id)
  }

  ghost predicate OtherSuperseded(s: State, r: Review, id: string)
    requires s.record.Some? && id in s.reviews
  {
    s.reviews[id].taskId == r.taskId && s.reviews[id].commit != r.commit ==>
      s.reviews[id].commit in s.record.value.superseded
  }

  lemma LoadedSection<T>(section: map<string, T>, x: T)
    ensures Listed(section) == [] <==> section == map[]
    ensures x in Listed(section) <==> x in section.Values
  {
    ListedMembers(section);
    if section != map[] {
      assert section.Keys != {};
    }
  }

  lemma ApproveOutcome(s: State, d: Approval)
    ensures var (t, e) := ApproveStep(s, d);
      && (e.None? <==> Approvable(s, d)) && (e.Some? ==> ApprovalFault(s, d, e.value))
      && t == s.(approvals := if e.None? then s.approvals[d.id := d] else s.approvals)
      && (ApprovalsOk(s) ==> ApprovalsOk(t))
      && (ApprovalsOk(s) && s.approvals != map[] ==> t == s && (e.None? <==> d in s.approvals.Values))
  {
    if ApprovalsOk(s) {
      ApproveKeepsApprovals(s, d);
      SecondApproval(s, d);
    }
  }

  /** Once a decision is on file, only that decision is accepted again, and it changes nothing. */
  lemma SecondApproval(s: State, d: Approval)
    requires ApprovalsOk(s)
    ensures s.approvals != map[] ==>
      ApproveStep(s, d).0 == s && (ApproveStep(s, d).1.None? <==> d in s.approvals.Values)
  {
    if d in s.approvals.Values {
      var a :| a in s.approvals && s.approvals[a] == d;
      assert a == d.id && s.approvals[d.id := d] == s.approvals;
    }
  }

  lemma IntegrateOutcome(s: State, repo: Repository)
    ensures var (t, r) := IntegrateStep(s, repo);
      && (r.Err? ==> t == s)
      && (r.Ok? ==> IsApproved(s) && IsBootstrapped(s) && Integration(s, repo) == r)
      && (r.Ok? ==> t.handoff == Some(r.value) && (s.handoff.Some? ==> s.handoff == t.handoff))
      && (r.Err? ==> IntegrationFault(s, repo, r.error))
      && (ReviewsOk(s) ==> r != Err(DuplicateDecision))
  {
    if ReviewsOk(s) {
      NeverDuplicate(s, repo);
    }
    if IsBootstrapped(s) && Integration(s, repo).Ok? {
      HandoffEffect(s, Integration(s, repo).value);
    }
    IntegrateFails(s, repo);
  }

  /** The authority's only errors. */
  lemma IntegrationRaises(s: State, repo: Repository)
    requires IsBootstrapped(s)
    ensures var r := Integration(s, repo); r.Err? ==> r.error.DuplicateDecision? || r.error.PickFailed?
  {
    var required := RequiredLanes(s.record.value.lanes);
    var boot, superseded := s.record.value.bootstrap.value, s.record.value.superseded;
    IntegrateMeans(required, CurrentReviews(s, required), boot, superseded, repo);
  }

  lemma IntegrateFails(s: State, repo: Repository)
    ensures var r := IntegrateStep(s, repo).1; r.Err? ==> IntegrationFault(s, repo, r.error)
  {
    if IsBootstrapped(s) {
      IntegrationRaises(s, repo);
      if Integration(s, repo).Ok? {
        HandoffEffect(s, Integration(s, repo).value);
      }
    }
  }

  /** When a review returns, and what it records. */
  lemma ReviewReturns(s: State, taskId: string, raw: RawReview, inspection: Option<Inspection>)
    ensures var r := ReviewStep(s, taskId, raw, inspection).1;
      && (r.Ok? <==> exists d: Review :: Favourable(s, taskId, raw, inspection, d) && !Refuses(s.reviews, d.id, d))
      && (r.Ok? ==> Favourable(s, taskId, raw, inspection, r.value))
      && (r.Err? && r.error != DifferentReview ==> ReviewFault(s, taskId, raw, inspection, r.error))
  {
    JudgeReviewMeans(s, taskId, raw, inspection);
    var judged := JudgeReview(s, taskId, raw, inspection);
    if judged.Ok? {
      forall d: Review | Favourable(s, taskId, raw, inspection, d) ensures d == judged.value {
        ProposedDecides(s, taskId, raw, inspection, d);
        ProposedDecides(s, taskId, raw, inspection, judged.value);
      }
    }
  }

  /** What a caller can rely on after a review. */
  lemma ReviewOutcome(s: State, taskId: string, raw: RawReview, inspection: Option<Inspection>)
    ensures var (t, r) := ReviewStep(s, taskId, raw, inspection);
      && (r.Ok? ==> !Refuses(s.reviews, r.value.id, r.value) && t.reviews == s.reviews[r.value.id := r.value])
      && (r.Ok? ==> AboutCurrent(t, taskId, r.value) && OthersSuperseded(t, r.value))
      && (r.Err? ==> t.reviews == s.reviews && (r.error != DifferentReview ==> t == s))
  {
    if JudgeReview(s, taskId, raw, inspection).Ok? {
      ReviewSupersedes(s, taskId, raw, inspection);
    }
  }
}

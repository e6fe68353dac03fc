/** What every run of the application factory keeps. */
module FactorySafety {
  import opened Collections
  import opened Sorting
  import opened FactoryLifecycle

  datatype Operation =
    | PlanReady(plan: FactoryPlan)
    | PlanStopped(payload: string, items: seq<Unmet>)
    | DoApprove(decision: Approval)
    | DoBootstrap(attempt: Attempt)
    | DoExecute(results: map<string, TaskResult>)
    | Progress(results: map<string, TaskResult>)
    | DoReview(taskId: string, raw: RawReview, inspection: Option<Inspection>)
    | DoIntegrate(repo: Repository)

  /** `Progress` is the provider service changing task results on its own. */
  function Apply(s: State, op: Operation): State {
    match op
    case PlanReady(plan) => PlanStep(s, plan).0
    case PlanStopped(payload, items) => PlanBlocked(s, payload, items).0
    case DoApprove(decision) => ApproveStep(s, decision).0
    case DoBootstrap(attempt) => BootstrapStep(s, attempt).0
    case DoExecute(results) => ExecuteStep(s, results).0
    case Progress(results) => s.(results := results)
    case DoReview(taskId, raw, inspection) => ReviewStep(s, taskId, raw, inspection).0
    case DoIntegrate(repo) => IntegrateStep(s, repo).0
  }

  function Run(s: State, ops: seq<Operation>): State
    decreases |ops|
  {
    if ops == [] then s else Run(Apply(s, ops[0]), ops[1..])
  }

  const FRESH := State(None, map[], map[], map[], None, false, map[], None, None)

  // ---------------------------------------------------------------- the invariant

  ghost predicate ApprovalsOk(s: State) {
    && (s.record.None? ==> s.approvals == map[])
    && (forall a :: a in s.approvals ==>
        s.approvals[a].id == a && s.record.value.subjectRef == Some(s.approvals[a].subjectRef))
    && (forall a, b :: a in s.approvals && b in s.approvals ==> s.approvals[a] == s.approvals[b])
    && (s.record.Some? && s.record.value.planning.Blocked? ==> s.record.value.subjectRef.None?)
  }

  ghost predicate GatesOk(s: State) {
    && (IsBootstrapped(s) ==> IsApproved(s))
    && (s.reviews != map[] || s.handoff.Some? ==> IsBootstrapped(s))
  }

  /** Each (task, commit) pair carries at most one decision. */
  ghost predicate ReviewsOk(s: State) {
    && (forall a :: a in s.reviews ==> s.reviews[a].id == a)
    && (forall a, b :: a in s.reviews && b in s.reviews && SameCandidate(s.reviews[a], s.reviews[b]) ==> a == b)
  }

  ghost predicate Live(s: State, commit: string) {
    s.record.Some? && commit !in s.record.value.superseded
  }

  /** Of the reviewed commits of a task at most one is not superseded. */
  ghost predicate SupersededOk(s: State) {
    forall a, b :: LiveReview(s, a) && LiveReview(s, b) && s.reviews[a].taskId == s.reviews[b].taskId ==>
      s.reviews[a].commit == s.reviews[b].commit
  }

  ghost predicate LiveReview(s: State, id: string) {
    id in s.reviews && Live(s, s.reviews[id].commit)
  }

  ghost predicate Good(s: State) {
    ApprovalsOk(s) && GatesOk(s) && ReviewsOk(s) && SupersededOk(s)
  }

  // ---------------------------------------------------------------- approval

  /** With at most one decision on file the approval state is that decision's verdict. */
  lemma ApprovalStateReads(s: State)
    requires s.record.Some? && ApprovalsOk(s)
    ensures s.approvals == map[] ==> ApprovalStateOf(s.record.value, s.approvals) == Planned(s.record.value.planning)
    ensures forall a :: a in s.approvals ==>
      ApprovalStateOf(s.record.value, s.approvals) ==
        match s.approvals[a].verdict {
          case Approve => Approved
          case Reject => Rejected
          case Revise => RevisionRequested
        }
  {
    assert s.approvals != map[] ==> s.approvals.Keys != {};
    forall a | a in s.approvals ensures a in Relevant(s.record.value, s.approvals) {
    }
  }

  /** The fixed part of the planning record. */
  ghost predicate SamePlan(a: Record, b: Record) {
    a.planning == b.planning && a.subjectRef == b.subjectRef && a.payload == b.payload && a.lanes == b.lanes &&
      a.tasks == b.tasks
  }

  /** What no operation takes back: plan, approvals, bootstrap, superseded commits, reviews and handoff. */
  ghost predicate Follows(s: State, t: State) {
    && (s.record.Some? ==> t.record.Some?)
    && (s.record.Some? ==>
        SamePlan(s.record.value, t.record.value) && s.record.value.superseded <= t.record.value.superseded)
    && (IsBootstrapped(s) ==> t.record.value.bootstrap == s.record.value.bootstrap)
    && (forall a :: a in s.approvals ==> a in t.approvals && t.approvals[a] == s.approvals[a])
    && (forall a :: a in s.reviews ==> a in t.reviews && t.reviews[a] == s.reviews[a])
    && (s.handoff.Some? ==> t.handoff == s.handoff)
    && (s.populated ==> t.populated)
    && (s.agentPlan.Some? ==> t.agentPlan == s.agentPlan)
  }

  lemma FollowsTransitive(s: State, t: State, u: State)
    requires Follows(s, t) && Follows(t, u)
    ensures Follows(s, u)
  {
  }

  /** `t` is `s` after the review `r` went through, or stopped short of recording it on a reused id. */
  ghost predicate Reviewed(s: State, r: Review, t: State) {
    && s.record.Some? && IsBootstrapped(s) && IsApproved(s)
    && t.record == Some(s.record.value.(superseded := s.record.value.superseded + EarlierCommits(s.reviews, r)))
    && t.approvals == s.approvals && t.handoff == s.handoff && t.populated == s.populated
    && t.agentPlan == s.agentPlan && t.policyFile == s.policyFile
    && (t.reviews == s.reviews || (t.reviews == s.reviews[r.id := r] && (r.id in s.reviews ==> s.reviews[r.id] == r)))
  }

  /** The candidate is undecided, or this very decision is on file. */
  ghost predicate Undecided(s: State, r: Review) {
    (forall a :: a in s.reviews ==> !SameCandidate(s.reviews[a], r)) || exists a :: a in s.reviews && s.reviews[a] == r
  }

  lemma ReviewEffect(s: State, taskId: string, raw: RawReview, inspection: Option<Inspection>)
    ensures var judged, t := JudgeReview(s, taskId, raw, inspection), ReviewStep(s, taskId, raw, inspection).0;
      if judged.Err? then t == s
      else Reviewed(s, judged.value, t) && Undecided(s, judged.value) && judged.value.taskId == taskId
  {
    var judged := JudgeReview(s, taskId, raw, inspection);
    if judged.Ok? && judged.value in s.reviews.Values {
      var a :| a in s.reviews && s.reviews[a] == judged.value;
    }
  }

  lemma IntegrateEffect(s: State, repo: Repository)
    ensures var t := IntegrateStep(s, repo).0;
      t == s || (IsBootstrapped(s) && s.handoff.None? && t == s.(handoff := t.handoff))
  {
    if IsBootstrapped(s) && Integration(s, repo).Ok? {
      HandoffEffect(s, Integration(s, repo).value);
    }
  }

  /** The first handoff is kept; another one is refused. */
  lemma HandoffEffect(s: State, h: Handoff)
    ensures var (t, r) := RecordHandoff(s, h);
      && t == (if s.handoff.None? then s.(handoff := Some(h)) else s)
      && (r.Ok? <==> t.handoff == Some(h)) && (r.Ok? ==> r.value == h)
  {
  }

  /** Planning touches the unmet requirements, agent plan and policy, and the record only when there is none. */
  lemma PlanEffect(s: State, op: Operation)
    requires op.PlanReady? || op.PlanStopped?
    ensures var t := Apply(s, op);
      && t == s.(record := t.record, unmet := t.unmet, agentPlan := t.agentPlan, policyFile := t.policyFile)
      && (s.agentPlan.Some? ==> t.agentPlan == s.agentPlan)
      && (s.record.Some? ==> t.record == s.record)
      && (s.record.None? && t.record.Some? ==>
        t.record.value.bootstrap.None? && (t.record.value.planning.Blocked? ==> t.record.value.subjectRef.None?))
  {
  }

  /** A bootstrap touches the repository and the bootstrap of an approved record that has none. */
  lemma BootstrapEffect(s: State, attempt: Attempt)
    ensures var t := BootstrapStep(s, attempt).0;
      || t == s
      || t == s.(populated := true)
      || (IsApproved(s) && !IsBootstrapped(s) && attempt.Succeeds?
          && t == s.(populated := true, record := Some(s.record.value.(bootstrap := Some(attempt.bootstrap)))))
  {
  }

  lemma ReviewedFollows(s: State, r: Review, t: State)
    requires Reviewed(s, r, t)
    ensures Follows(s, t)
  {
  }

  /** Only a review touches the reviews and the superseded commits of an existing record. */
  lemma OnlyReviewsReview(s: State, op: Operation)
    requires !op.DoReview?
    ensures var t := Apply(s, op);
      t.reviews == s.reviews &&
        (s.record.Some? ==> t.record.Some? && t.record.value.superseded == s.record.value.superseded)
  {
    if op.DoIntegrate? {
      IntegrateEffect(s, op.repo);
    } else if op.PlanReady? || op.PlanStopped? {
      PlanEffect(s, op);
    } else if op.DoBootstrap? {
      BootstrapEffect(s, op.attempt);
    }
  }

  lemma StepFollows(s: State, op: Operation)
    ensures Follows(s, Apply(s, op))
  {
    match op
    case DoReview(taskId, raw, inspection) => ReviewFollows(s, taskId, raw, inspection);
    case DoIntegrate(repo) => IntegrateEffect(s, repo);
    case DoApprove(decision) => ApproveFollows(s, decision);
    case DoBootstrap(attempt) => BootstrapFollows(s, attempt);
    case PlanReady(_) => PlanFollows(s, op);
    case PlanStopped(_, _) => PlanFollows(s, op);
    case DoExecute(results) => ExecuteFollows(s, results);
    case Progress(_) =>
  }

  lemma ExecuteFollows(s: State, results: map<string, TaskResult>)
    ensures Follows(s, ExecuteStep(s, results).0)
  {
    var t := ExecuteStep(s, results).0;
    assert t == s.(results := t.results);
  }

  lemma ReviewFollows(s: State, taskId: string, raw: RawReview, inspection: Option<Inspection>)
    ensures Follows(s, ReviewStep(s, taskId, raw, inspection).0)
  {
    ReviewEffect(s, taskId, raw, inspection);
    var judged := JudgeReview(s, taskId, raw, inspection);
    if judged.Ok? {
      ReviewedFollows(s, judged.value, ReviewStep(s, taskId, raw, inspection).0);
    }
  }

  lemma PlanFollows(s: State, op: Operation)
    requires op.PlanReady? || op.PlanStopped?
    ensures Follows(s, Apply(s, op))
  {
    PlanEffect(s, op);
  }

  lemma BootstrapFollows(s: State, attempt: Attempt)
    ensures Follows(s, BootstrapStep(s, attempt).0)
  {
    BootstrapEffect(s, attempt);
  }

  lemma ApproveFollows(s: State, d: Approval)
    ensures Follows(s, ApproveStep(s, d).0)
  {
  }

  /** No operation rewrites the plan or withdraws an approval, a bootstrap, a review or a handoff. */
  lemma {:induction false} RunFollows(s: State, ops: seq<Operation>)
    ensures Follows(s, Run(s, ops))
    decreases |ops|
  {
    if ops != [] {
      StepFollows(s, ops[0]);
      RunFollows(Apply(s, ops[0]), ops[1..]);
      FollowsTransitive(s, Apply(s, ops[0]), Run(s, ops));
    }
  }

  // ---------------------------------------------------------------- the invariant is kept

  /** Once decided, the approval state never changes. */
  lemma ApprovalStateFixed(s: State, t: State)
    requires ApprovalsOk(s) && ApprovalsOk(t) && Follows(s, t) && s.record.Some? && s.approvals != map[]
    ensures ApprovalStateOf(t.record.value, t.approvals) == ApprovalStateOf(s.record.value, s.approvals)
  {
    ApprovalStateReads(s);
    ApprovalStateReads(t);
    assert s.approvals.Keys != {};
    var a :| a in s.approvals;
  }

  lemma ApprovedStays(s: State, t: State)
    requires ApprovalsOk(s) && ApprovalsOk(t) && Follows(s, t) && IsApproved(s)
    ensures IsApproved(t)
  {
    ApprovalStateReads(s);
    ApprovalStateFixed(s, t);
  }

  lemma ApproveKeepsApprovals(s: State, d: Approval)
    requires ApprovalsOk(s)
    ensures ApprovalsOk(ApproveStep(s, d).0)
  {
    if s.approvals != map[] && d in s.approvals.Values {
      var a :| a in s.approvals && s.approvals[a] == d;
      assert a == d.id;
    }
  }

  /** Everything but an approval leaves the approvals and the plan of an existing record alone. */
  lemma OnlyApprovalsApprove(s: State, op: Operation)
    requires !op.DoApprove?
    ensures var t := Apply(s, op);
      t.approvals == s.approvals
      && (s.record.Some? ==> t.record.Some? && SamePlan(s.record.value, t.record.value))
      && (s.record.None? && t.record.Some? && t.record.value.planning.Blocked? ==> t.record.value.subjectRef.None?)
  {
    if op.DoReview? {
      ReviewEffect(s, op.taskId, op.raw, op.inspection);
    } else if op.DoIntegrate? {
      IntegrateEffect(s, op.repo);
    } else if op.PlanReady? || op.PlanStopped? {
      PlanEffect(s, op);
    } else if op.DoBootstrap? {
      BootstrapEffect(s, op.attempt);
    }
  }

  lemma SamePlanKeepsApprovals(s: State, t: State)
    requires ApprovalsOk(s) && t.approvals == s.approvals
    requires s.record.Some? ==> t.record.Some? && SamePlan(s.record.value, t.record.value)
    requires s.record.None? && t.record.Some? && t.record.value.planning.Blocked? ==> t.record.value.subjectRef.None?
    ensures ApprovalsOk(t)
  {
  }

  lemma StepKeepsApprovals(s: State, op: Operation)
    requires ApprovalsOk(s)
    ensures ApprovalsOk(Apply(s, op))
  {
    if op.DoApprove? {
      ApproveKeepsApprovals(s, op.decision);
    } else {
      OnlyApprovalsApprove(s, op);
      SamePlanKeepsApprovals(s, Apply(s, op));
    }
  }

  /** What decides the gates: a bootstrap needs an approval, a review or a handoff needs a bootstrap. */
  lemma GatesFollow(s: State, t: State)
    requires GatesOk(s) && ApprovalsOk(s) && ApprovalsOk(t) && Follows(s, t)
    requires IsBootstrapped(t) && !IsBootstrapped(s) ==> IsApproved(s)
    requires t.reviews != s.reviews || t.handoff != s.handoff ==> IsBootstrapped(s)
    ensures GatesOk(t)
  {
    if IsApproved(s) {
      ApprovedStays(s, t);
    }
  }

  lemma StepKeepsGates(s: State, op: Operation)
    requires ApprovalsOk(s) && GatesOk(s)
    ensures GatesOk(Apply(s, op))
  {
    StepKeepsApprovals(s, op);
    StepFollows(s, op);
    StepGated(s, op);
    GatesFollow(s, Apply(s, op));
  }

  lemma StepGated(s: State, op: Operation)
    ensures var t := Apply(s, op);
      && (IsBootstrapped(t) && !IsBootstrapped(s) ==> IsApproved(s))
      && (t.reviews != s.reviews || t.handoff != s.handoff ==> IsBootstrapped(s))
  {
    if op.DoReview? {
      ReviewEffect(s, op.taskId, op.raw, op.inspection);
    } else if op.DoIntegrate? {
      IntegrateEffect(s, op.repo);
    } else if op.PlanReady? || op.PlanStopped? {
      PlanEffect(s, op);
    } else if op.DoBootstrap? {
      BootstrapEffect(s, op.attempt);
    }
  }

  lemma ReviewedKeepsReviews(s: State, r: Review, t: State)
    requires ReviewsOk(s) && Reviewed(s, r, t) && Undecided(s, r)
    ensures ReviewsOk(t)
  {
    if a :| a in s.reviews && s.reviews[a] == r {
      assert t.reviews == s.reviews;
    }
  }

  lemma StepKeepsReviews(s: State, op: Operation)
    requires ReviewsOk(s)
    ensures ReviewsOk(Apply(s, op))
  {
    if op.DoReview? {
      var judged := JudgeReview(s, op.taskId, op.raw, op.inspection);
      ReviewEffect(s, op.taskId, op.raw, op.inspection);
      if judged.Ok? {
        ReviewedKeepsReviews(s, judged.value, Apply(s, op));
      }
    } else {
      OnlyReviewsReview(s, op);
    }
  }

  lemma ReviewedKeepsSuperseded(s: State, r: Review, t: State)
    requires SupersededOk(s) && Reviewed(s, r, t)
    ensures SupersededOk(t)
  {
    forall a, b | LiveReview(t, a) && LiveReview(t, b) && t.reviews[a].taskId == t.reviews[b].taskId
      ensures t.reviews[a].commit == t.reviews[b].commit
    {
      ReviewedLive(s, r, t, a);
      ReviewedLive(s, r, t, b);
    }
  }

  /** A live review of the reviewed task carries the reviewed commit; any other was live before. */
  lemma ReviewedLive(s: State, r: Review, t: State, a: string)
    requires Reviewed(s, r, t) && LiveReview(t, a)
    ensures t.reviews[a] == r || (LiveReview(s, a) && t.reviews[a] == s.reviews[a])
    ensures t.reviews[a].taskId == r.taskId ==> t.reviews[a].commit == r.commit
  {
  }

  lemma StepKeepsSuperseded(s: State, op: Operation)
    requires GatesOk(s) && SupersededOk(s)
    ensures SupersededOk(Apply(s, op))
  {
    if op.DoReview? {
      var judged := JudgeReview(s, op.taskId, op.raw, op.inspection);
      ReviewEffect(s, op.taskId, op.raw, op.inspection);
      if judged.Ok? {
        ReviewedKeepsSuperseded(s, judged.value, Apply(s, op));
      }
    } else {
      OnlyReviewsReview(s, op);
      UnreviewedKeepsSuperseded(s, Apply(s, op));
    }
  }

  lemma UnreviewedKeepsSuperseded(s: State, t: State)
    requires GatesOk(s) && SupersededOk(s) && t.reviews == s.reviews
    requires s.record.Some? ==> t.record.Some? && t.record.value.superseded == s.record.value.superseded
    ensures SupersededOk(t)
  {
    assert forall a :: LiveReview(t, a) ==> LiveReview(s, a);
  }

  /** After a review every other reviewed commit of the task is superseded. */
  lemma ReviewSupersedes(s: State, taskId: string, raw: RawReview, inspection: Option<Inspection>)
    requires JudgeReview(s, taskId, raw, inspection).Ok?
    ensures var r, t := JudgeReview(s, taskId, raw, inspection).value, ReviewStep(s, taskId, raw, inspection).0;
            && t.record.Some?
            && forall a :: a in t.reviews && t.reviews[a].taskId == taskId && t.reviews[a].commit != r.commit ==>
                 t.reviews[a].commit in t.record.value.superseded
  {
    var r, t := JudgeReview(s, taskId, raw, inspection).value, ReviewStep(s, taskId, raw, inspection).0;
    forall a | a in t.reviews && t.reviews[a].taskId == taskId && t.reviews[a].commit != r.commit
      ensures t.reviews[a].commit in t.record.value.superseded
    {
      assert a in s.reviews && s.reviews[a] == t.reviews[a];
      assert s.reviews[a].commit in EarlierCommits(s.reviews, r);
    }
  }

  lemma StepKeepsGood(s: State, op: Operation)
    requires Good(s)
    ensures Good(Apply(s, op))
  {
    StepKeepsApprovals(s, op);
    StepKeepsGates(s, op);
    StepKeepsReviews(s, op);
    StepKeepsSuperseded(s, op);
  }

  /** Every reachable state is good, whatever the commands, inspections, repositories and task results. */
  lemma {:induction false} RunKeepsGood(s: State, ops: seq<Operation>)
    requires Good(s)
    ensures Good(Run(s, ops))
    decreases |ops|
  {
    if ops != [] {
      StepKeepsGood(s, ops[0]);
      RunKeepsGood(Apply(s, ops[0]), ops[1..]);
    }
  }

  // ---------------------------------------------------------------- consequences for every run

  /** Bootstrapped implies approved; a review or a handoff implies both; a blocked plan is never approved. */
  lemma LifecycleGates(ops: seq<Operation>)
    ensures var s := Run(FRESH, ops);
            && (IsBootstrapped(s) ==> IsApproved(s))
            && (s.reviews != map[] || s.handoff.Some? ==> IsApproved(s) && IsBootstrapped(s))
            && (s.record.Some? && s.record.value.planning.Blocked? ==>
                !IsApproved(s) && !IsBootstrapped(s) && s.reviews == map[] && s.handoff.None?)
  {
    var s := Run(FRESH, ops);
    RunKeepsGood(FRESH, ops);
    if s.record.Some? && s.record.value.planning.Blocked? {
      BlockedHasNoApprovals(s);
      ApprovalStateReads(s);
    }
  }

  lemma BlockedHasNoApprovals(s: State)
    requires ApprovalsOk(s) && s.record.Some? && s.record.value.planning.Blocked?
    ensures s.approvals == map[]
  {
    assert forall a :: a in s.approvals ==> s.record.value.subjectRef == Some(s.approvals[a].subjectRef);
  }

  /** A recorded decision fixes the approval state, and a bootstrap is never repeated or changed. */
  lemma DecisionsAreFinal(ops: seq<Operation>, more: seq<Operation>)
    ensures var s, t := Run(FRESH, ops), Run(Run(FRESH, ops), more);
            && (s.record.Some? && s.approvals != map[] ==>
                  t.record.Some? &&
                    ApprovalStateOf(t.record.value, t.approvals) == ApprovalStateOf(s.record.value, s.approvals))
            && (IsBootstrapped(s) ==> IsBootstrapped(t) && t.record.value.bootstrap == s.record.value.bootstrap)
            && (s.handoff.Some? ==> t.handoff == s.handoff)
  {
    var s := Run(FRESH, ops);
    RunKeepsGood(FRESH, ops);
    RunKeepsGood(s, more);
    RunFollows(s, more);
    if s.record.Some? && s.approvals != map[] {
      ApprovalStateFixed(s, Run(s, more));
    }
  }

  /** A second bootstrap is always refused and changes nothing. */
  lemma BootstrapOnce(ops: seq<Operation>, more: seq<Operation>, attempt: Attempt)
    requires IsBootstrapped(Run(FRESH, ops))
    ensures var t := Run(Run(FRESH, ops), more); BootstrapStep(t, attempt) == (t, Some(AlreadyBootstrapped))
  {
    DecisionsAreFinal(ops, more);
    RunKeepsGood(FRESH, ops);
    RunKeepsGood(Run(FRESH, ops), more);
  }

  /** The repository was filled by a bootstrap that did not complete. */
  ghost predicate HalfBootstrapped(s: State) {
    s.populated && !IsBootstrapped(s)
  }

  lemma StepStaysHalf(s: State, op: Operation)
    requires HalfBootstrapped(s)
    ensures HalfBootstrapped(Apply(s, op))
  {
    StepFollows(s, op);
    if op.DoReview? {
      ReviewEffect(s, op.taskId, op.raw, op.inspection);
    } else if op.DoIntegrate? {
      IntegrateEffect(s, op.repo);
    }
  }

  lemma {:induction false} RunStaysHalf(s: State, ops: seq<Operation>)
    requires HalfBootstrapped(s)
    ensures HalfBootstrapped(Run(s, ops))
    decreases |ops|
  {
    if ops != [] {
      StepStaysHalf(s, ops[0]);
      RunStaysHalf(Apply(s, ops[0]), ops[1..]);
    }
  }

  /** A bootstrap that failed after filling the repository cannot be repeated: every later one is refused. */
  lemma HalfBootstrapIsFinal(s: State, more: seq<Operation>, attempt: Attempt)
    requires HalfBootstrapped(s)
    ensures var t := Run(s, more);
      !IsBootstrapped(t) && BootstrapStep(t, attempt).0 == t && BootstrapStep(t, attempt).1.Some?
  {
    RunStaysHalf(s, more);
  }

  /** The integration yields a handoff, and no other is on record. */
  predicate Recordable(handoff: Option<Handoff>, outcome: Result<Handoff, FactoryError>) {
    outcome.Ok? && (handoff.None? || handoff == Some(outcome.value))
  }

  lemma RecordedAt(s: State, repo: Repository)
    requires Good(s)
    ensures var (t, r) := IntegrateStep(s, repo);
      && (r.Ok? <==> IsBootstrapped(s) && Recordable(s.handoff, Integration(s, repo)))
      && (r.Ok? ==> r == Integration(s, repo) && t == s.(handoff := Some(r.value)))
      && (r.Err? ==> t == s)
  {
  }

  /**
    In every run an integration is recorded if and only if the run is bootstrapped, the integration yields a
    handoff, and no other handoff is on record; a refused one changes nothing.
   */
  lemma IntegrationRecorded(ops: seq<Operation>, repo: Repository)
    ensures var s := Run(FRESH, ops);
      var (t, r) := IntegrateStep(s, repo);
      && (r.Ok? <==> IsBootstrapped(s) && Recordable(s.handoff, Integration(s, repo)))
      && (r.Ok? ==> r == Integration(s, repo) && t == s.(handoff := Some(r.value)))
      && (r.Err? ==> t == s)
  {
    RunKeepsGood(FRESH, ops);
    RecordedAt(Run(FRESH, ops), repo);
  }

  lemma FinalAt(t: State, repo: Repository)
    requires Good(t) && t.handoff.Some?
    ensures IsBootstrapped(t) && (IntegrateStep(t, repo).1.Ok? <==> Integration(t, repo) == Ok(t.handoff.value)) &&
      IntegrateStep(t, repo).0 == t
  {
    RecordedAt(t, repo);
  }

  /**
    Once a handoff is on record, blocked or not, a later integration returns if and only if it yields that very
    handoff, and the record never changes: after a blocked integration no success can be recorded.
   */
  lemma HandoffIsFinal(ops: seq<Operation>, more: seq<Operation>, repo: Repository)
    requires Run(FRESH, ops).handoff.Some?
    ensures var h := Run(FRESH, ops).handoff.value;
      var t := Run(Run(FRESH, ops), more);
      && IsBootstrapped(t)
      && (IntegrateStep(t, repo).1.Ok? <==> Integration(t, repo) == Ok(h))
      && IntegrateStep(t, repo).0 == t && t.handoff == Some(h)
  {
    DecisionsAreFinal(ops, more);
    RunKeepsGood(FRESH, ops);
    RunKeepsGood(Run(FRESH, ops), more);
    FinalAt(Run(Run(FRESH, ops), more), repo);
  }

  // ---------------------------------------------------------------- reviews and integration

  /** Superseded commits accumulate; after a review all other reviewed commits of the task are among them. */
  lemma SupersededAfterReview(ops: seq<Operation>, taskId: string, raw: RawReview, inspection: Option<Inspection>,
      more: seq<Operation>)
    requires ReviewStep(Run(FRESH, ops), taskId, raw, inspection).1.Ok?
    ensures var s := Run(FRESH, ops);
            var (t, r) := ReviewStep(s, taskId, raw, inspection);
            var u := Run(t, more);
            && u.record.Some? && s.record.Some? &&
                s.record.value.superseded <= t.record.value.superseded <= u.record.value.superseded
            && forall a :: a in t.reviews && t.reviews[a].taskId == taskId && t.reviews[a].commit != r.value.commit ==>
                 t.reviews[a].commit in u.record.value.superseded
  {
    var s := Run(FRESH, ops);
    var t := ReviewStep(s, taskId, raw, inspection).0;
    ReviewSupersedes(s, taskId, raw, inspection);
    StepFollows(s, DoReview(taskId, raw, inspection));
    RunFollows(t, more);
  }

  /**
    A review leaves its task with a reviewed commit that may still be integrated exactly when the
    reviewed commit was not superseded before the call: going back to one strands the task until a fresh commit is
    reviewed.
   */
  lemma LiveAfterReview(s: State, taskId: string, raw: RawReview, inspection: Option<Inspection>)
    requires ReviewStep(s, taskId, raw, inspection).1.Ok?
    ensures var (t, r) := ReviewStep(s, taskId, raw, inspection);
            (exists a :: LiveReview(t, a) && t.reviews[a].taskId == taskId) <==> Live(s, r.value.commit)
  {
    ReviewSupersedes(s, taskId, raw, inspection);
    var (t, r) := ReviewStep(s, taskId, raw, inspection);
    assert r.value.commit !in EarlierCommits(s.reviews, r.value);
    if Live(s, r.value.commit) {
      assert LiveReview(t, r.value.id);
    }
  }

  ghost predicate OnePerTask(decisions: seq<Review>) {
    forall i, j :: 0 <= i < j < |decisions| ==> decisions[i].taskId != decisions[j].taskId
  }

  lemma OnePerTaskCons(first: Review, rest: seq<Review>)
    requires OnePerTask(rest) && forall d :: d in rest ==> d.taskId != first.taskId
    ensures OnePerTask([first] + rest)
  {
    forall j | 0 <= j < |rest| ensures rest[j].taskId != first.taskId {
      assert rest[j] in rest;
    }
  }

  lemma {:induction false} SelectedOnce(s: State, required: seq<string>, ids: seq<string>)
    requires ReviewsOk(s) && Distinct(ids) && forall id :: id in ids ==> id in s.reviews
    ensures OnePerTask(SelectCurrent(s, required, ids))
  {
    if ids != [] {
      SelectedOnce(s, required, ids[1..]);
      var first := s.reviews[ids[0]];
      var rest := SelectCurrent(s, required, ids[1..]);
      if Current(s, required, first) {
        forall d | d in rest ensures d.taskId != first.taskId {
          var id :| id in ids[1..] && s.reviews[id] == d && Current(s, required, d);
          var k :| 0 <= k < |ids[1..]| && ids[1..][k] == id;
          assert ids[k + 1] == id && ids[0] != id;
          assert !SameCandidate(s.reviews[id], s.reviews[ids[0]]);
        }
        OnePerTaskCons(first, rest);
        assert SelectCurrent(s, required, ids) == [first] + rest;
      } else {
        assert SelectCurrent(s, required, ids) == rest;
      }
    }
  }

  lemma {:induction false} ByTaskTotal(decisions: seq<Review>)
    requires OnePerTask(decisions)
    ensures ByTask(decisions).Some?
    ensures var table := ByTask(decisions).value;
            && (forall t :: t in table ==> table[t] in decisions && table[t].taskId == t)
            && (forall d :: d in decisions ==> d.taskId in table && table[d.taskId] == d)
  {
    if decisions != [] {
      var last := |decisions| - 1;
      ByTaskTotal(decisions[..last]);
      assert decisions == decisions[..last] + [decisions[last]];
    }
  }

  lemma OneCurrentDecision(s: State, required: seq<string>)
    requires ReviewsOk(s)
    ensures OnePerTask(CurrentReviews(s, required))
  {
    var ids := SortedSet(s.reviews.Keys);
    assert forall id :: id in ids ==> id in ToSet(ids);
    SelectedOnce(s, required, ids);
  }

  /** `integrate` hands over at most one decision per task, always about that task's current commit. */
  lemma OneDecisionPerTask(ops: seq<Operation>, required: seq<string>, i: nat, j: nat)
    requires i < |CurrentReviews(Run(FRESH, ops), required)| && j < |CurrentReviews(Run(FRESH, ops), required)|
    ensures var s := Run(FRESH, ops);
            var current := CurrentReviews(s, required);
            && (i != j ==> current[i].taskId != current[j].taskId)
            && current[i].taskId in required && current[i].taskId in s.results &&
                s.results[current[i].taskId].commit == Some(current[i].commit)
  {
    var s := Run(FRESH, ops);
    RunKeepsGood(FRESH, ops);
    OneCurrentDecision(s, required);
    assert CurrentReviews(s, required)[i] in CurrentReviews(s, required);
  }

  lemma TabledNeverDuplicate(required: seq<string>, reviews: seq<Review>, boot: Bootstrap, superseded: set<string>,
      repo: Repository)
    requires ByTask(reviews).Some?
    ensures Integrate(required, reviews, boot, superseded, repo) != Err(DuplicateDecision)
  {
  }

  lemma NeverDuplicate(s: State, repo: Repository)
    requires ReviewsOk(s)
    ensures IntegrateStep(s, repo).1 != Err(DuplicateDecision)
  {
    if IsBootstrapped(s) {
      var required := RequiredLanes(s.record.value.lanes);
      OneCurrentDecision(s, required);
      ByTaskTotal(CurrentReviews(s, required));
      TabledNeverDuplicate(
        required, CurrentReviews(s, required), s.record.value.bootstrap.value, s.record.value.superseded, repo);
    }
  }

  /** The authority's guard against a doubly decided task is never hit. */
  lemma IntegrationNeverRaises(ops: seq<Operation>, repo: Repository)
    ensures IntegrateStep(Run(FRESH, ops), repo).1 != Err(DuplicateDecision)
  {
    RunKeepsGood(FRESH, ops);
    NeverDuplicate(Run(FRESH, ops), repo);
  }

  lemma {:induction false} NoProblemMeansLive(accepted: seq<Review>, superseded: set<string>, base: string,
      repo: Repository)
    requires CheckCandidates(accepted, superseded, base, repo).None?
    ensures forall d :: d in accepted ==>
      d.commit !in superseded && !repo.integrated(d.commit) && repo.isAncestor(base, d.commit) &&
        repo.changedPaths(d.commit, base) == d.paths
  {
    if accepted != [] {
      NoProblemMeansLive(accepted[1..], superseded, base, repo);
      assert accepted == [accepted[0]] + accepted[1..];
    }
  }

  /** A task's integrated candidate: accepted, on the current commit, and the only reviewed commit still live. */
  ghost predicate Integrable(s: State, task: string, id: string) {
    && id in s.reviews && s.reviews[id].taskId == task && s.reviews[id].verdict == Accept
    && task in s.results && s.results[task].commit == Some(s.reviews[id].commit)
    && Live(s, s.reviews[id].commit)
    && forall b :: b in s.reviews && s.reviews[b].taskId == task && Live(s, s.reviews[b].commit) ==> b == id
  }

  /** `d` is the accepted decision behind one reference of a handoff. */
  predicate HandedOver(d: Review, task: string, ref: string, superseded: set<string>) {
    d.taskId == task && d.id == ref && d.verdict == Accept && d.commit !in superseded
  }

  /** What a handoff that got past every check says about the reviews it was given. */
  lemma IntegratedAccepted(required: seq<string>, reviews: seq<Review>, boot: Bootstrap, superseded: set<string>,
      repo: Repository)
    requires OnePerTask(reviews)
    requires var h := Integrate(required, reviews, boot, superseded, repo); h.Ok? && !h.value.status.Stopped?
    ensures var refs := Integrate(required, reviews, boot, superseded, repo).value.reviewRefs;
      && |refs| == |required|
      && forall i :: 0 <= i < |required| ==> exists d :: d in reviews && HandedOver(d, required[i], refs[i], superseded)
  {
    ByTaskTotal(reviews);
    var table := ByTask(reviews).value;
    var accepted := Pick(required, table);
    NoProblemMeansLive(accepted, superseded, boot.baseCommit, repo);
    forall i | 0 <= i < |required|
      ensures exists d :: d in reviews && HandedOver(d, required[i], Refs(accepted)[i], superseded)
    {
      assert required[i] in required && accepted[i] in accepted;
      assert HandedOver(accepted[i], required[i], Refs(accepted)[i], superseded);
    }
  }

  /** A handoff that got past every check has one reference for each required task. */
  lemma HandoffRefs(s: State, repo: Repository)
    requires Good(s)
    requires var r := IntegrateStep(s, repo).1; r.Ok? && !r.value.status.Stopped?
    ensures s.record.Some?
    ensures |IntegrateStep(s, repo).1.value.reviewRefs| == |RequiredLanes(s.record.value.lanes)|
  {
    var required := RequiredLanes(s.record.value.lanes);
    OneCurrentDecision(s, required);
    assert Integration(s, repo) == IntegrateStep(s, repo).1;
    IntegratedAccepted(required, CurrentReviews(s, required), s.record.value.bootstrap.value,
                       s.record.value.superseded, repo);
  }

  lemma GoodHandoff(s: State, repo: Repository, i: nat)
    requires Good(s) && s.record.Some?
    requires var r := IntegrateStep(s, repo).1; r.Ok? && !r.value.status.Stopped?
    requires i < |RequiredLanes(s.record.value.lanes)|
    ensures var required, refs := RequiredLanes(s.record.value.lanes), IntegrateStep(s, repo).1.value.reviewRefs;
            |refs| == |required| && Integrable(s, required[i], refs[i])
  {
    var required := RequiredLanes(s.record.value.lanes);
    var current := CurrentReviews(s, required);
    var refs := IntegrateStep(s, repo).1.value.reviewRefs;
    OneCurrentDecision(s, required);
    HandoffRefs(s, repo);
    assert Integration(s, repo) == IntegrateStep(s, repo).1;
    IntegratedAccepted(required, current, s.record.value.bootstrap.value, s.record.value.superseded, repo);
    var d :| d in current && HandedOver(d, required[i], refs[i], s.record.value.superseded);
    IntegrableCandidate(s, required, d);
  }

  /**
    A handoff with an integration commit names, task by task in lane order, the accepted review
    of the task's current commit, and every other reviewed commit of that task is superseded. An inspection behind that
    review accepted the candidate.
   */
  lemma HandoffIntegratesAccepted(ops: seq<Operation>, repo: Repository, i: nat)
    requires var r := IntegrateStep(Run(FRESH, ops), repo).1; r.Ok? && !r.value.status.Stopped?
    requires i < |RequiredLanes(Run(FRESH, ops).record.value.lanes)|
    ensures var s := Run(FRESH, ops);
            var required, refs := RequiredLanes(s.record.value.lanes), IntegrateStep(s, repo).1.value.reviewRefs;
            |refs| == |required| && Integrable(s, required[i], refs[i]) && AcceptedIn(ops, s.reviews[refs[i]])
  {
    RunKeepsGood(FRESH, ops);
    var s := Run(FRESH, ops);
    GoodHandoff(s, repo, i);
    RunDecides(FRESH, ops, IntegrateStep(s, repo).1.value.reviewRefs[i]);
  }

  lemma IntegrableCandidate(s: State, required: seq<string>, d: Review)
    requires Good(s) && d in CurrentReviews(s, required) && d.verdict == Accept && Live(s, d.commit)
    ensures Integrable(s, d.taskId, d.id)
  {
    var id :| id in s.reviews && s.reviews[id] == d && Current(s, required, d);
    assert LiveReview(s, id);
    forall b | b in s.reviews && s.reviews[b].taskId == d.taskId && Live(s, s.reviews[b].commit) ensures b == id {
      assert LiveReview(s, b);
      assert SameCandidate(s.reviews[b], s.reviews[id]);
    }
  }

  // ---------------------------------------------------------------- where recorded decisions come from

  /** The operation reviews a candidate, and `d` is its decision on what was inspected. */
  ghost predicate DecidedBy(op: Operation, d: Review) {
    op.DoReview? && op.inspection.Some? && Decides(d, op.taskId, op.raw, op.inspection.value)
  }

  ghost predicate DecidedIn(ops: seq<Operation>, d: Review) {
    exists k :: 0 <= k < |ops| && DecidedBy(ops[k], d)
  }

  /** One of the operations recorded `d` for an inspection that accepted the candidate. */
  ghost predicate AcceptedIn(ops: seq<Operation>, d: Review) {
    exists k :: 0 <= k < |ops| && DecidedBy(ops[k], d) && ops[k].inspection.value.decision == Accept
  }

  /** Only a review records a decision, and only one that nothing speaks against. */
  lemma StepRecords(s: State, op: Operation, id: string)
    requires id in Apply(s, op).reviews && id !in s.reviews
    ensures op.DoReview? && Favourable(s, op.taskId, op.raw, op.inspection, Apply(s, op).reviews[id])
  {
    if op.DoReview? {
      JudgeReviewMeans(s, op.taskId, op.raw, op.inspection);
    } else {
      OnlyReviewsReview(s, op);
    }
  }

  lemma StepDecides(s: State, op: Operation, id: string)
    requires id in Apply(s, op).reviews && id !in s.reviews
    ensures DecidedBy(op, Apply(s, op).reviews[id])
  {
    StepRecords(s, op, id);
  }

  /** Every decision a run records is that of one of its reviews, on what that review inspected. */
  lemma {:induction false} RunDecides(s: State, ops: seq<Operation>, id: string)
    requires id in Run(s, ops).reviews && id !in s.reviews
    ensures DecidedIn(ops, Run(s, ops).reviews[id])
    decreases |ops|
  {
    var t := Apply(s, ops[0]);
    if id in t.reviews {
      StepDecides(s, ops[0], id);
      RunFollows(t, ops[1..]);
      assert DecidedBy(ops[0], Run(s, ops).reviews[id]);
    } else {
      RunDecides(t, ops[1..], id);
      var k :| 0 <= k < |ops[1..]| && DecidedBy(ops[1..][k], Run(s, ops).reviews[id]);
      assert DecidedBy(ops[k + 1], Run(s, ops).reviews[id]);
    }
  }

  // ---------------------------------------------------------------- the policy that is executed

  /** The last of the plan calls that got as far as writing the policy file: `p`, or a later one on its agent plan. */
  function LastWriter(p: FactoryPlan, more: seq<Operation>): FactoryPlan
    decreases |more|
  {
    if more == [] then p
    else if more[0].PlanReady? && more[0].plan.agentPlan == p.agentPlan then LastWriter(more[0].plan, more[1..])
    else LastWriter(p, more[1..])
  }

  /** Only a plan call on the saved agent plan touches the policy file. */
  lemma StepWritesPolicy(s: State, op: Operation)
    requires s.agentPlan.Some?
    ensures Apply(s, op).policyFile ==
      if op.PlanReady? && s.agentPlan == Some(op.plan.agentPlan) then Some(op.plan.policy) else s.policyFile
  {
    if op.DoReview? {
      ReviewEffect(s, op.taskId, op.raw, op.inspection);
    } else if op.DoIntegrate? {
      IntegrateEffect(s, op.repo);
    } else if op.DoBootstrap? {
      BootstrapEffect(s, op.attempt);
    }
  }

  lemma {:induction false} RunWritesPolicy(s: State, p: FactoryPlan, more: seq<Operation>)
    requires s.agentPlan == Some(p.agentPlan) && s.policyFile == Some(p.policy)
    ensures Run(s, more).agentPlan == s.agentPlan && Run(s, more).policyFile == Some(LastWriter(p, more).policy)
    decreases |more|
  {
    if more != [] {
      var op := more[0];
      StepWritesPolicy(s, op);
      StepFollows(s, op);
      var writer := if op.PlanReady? && op.plan.agentPlan == p.agentPlan then op.plan else p;
      RunWritesPolicy(Apply(s, op), writer, more[1..]);
    }
  }

  /**
    In every run the record, and with it the subject of any approval, is that of the plan call that created it, but
    the policy file is that of the last plan call on the same agent plan, refused or not. So the policy executed is
    the one approved if and only if that last call carries the same policy.
   */
  lemma PolicyExecuted(ops: seq<Operation>, p: FactoryPlan, more: seq<Operation>)
    requires Run(FRESH, ops).record.None? && PlanStep(Run(FRESH, ops), p).1.None?
    ensures var t := Run(PlanStep(Run(FRESH, ops), p).0, more);
      && t.record.Some? && SamePlan(t.record.value, PlannedRecord(p))
      && (forall a :: a in t.approvals ==> t.approvals[a].subjectRef == p.subjectRef)
      && (t.policyFile == Some(p.policy) <==> LastWriter(p, more).policy == p.policy)
  {
    var s := PlanStep(Run(FRESH, ops), p).0;
    assert s.agentPlan == Some(p.agentPlan) && s.policyFile == Some(p.policy) && s.record == Some(PlannedRecord(p));
    RunWritesPolicy(s, p, more);
    RunFollows(s, more);
    RunKeepsGood(FRESH, ops);
    StepKeepsGood(Run(FRESH, ops), PlanReady(p));
    RunKeepsGood(s, more);
  }

  /** Once bootstrapped every plan call is refused, and yet on the saved agent plan it replaces the policy file. */
  lemma PlanAfterBootstrap(s: State, plan: FactoryPlan)
    requires IsBootstrapped(s)
    ensures PlanStep(s, plan).1.Some?
    ensures PlanStep(s, plan).0.policyFile != s.policyFile <==>
      (s.agentPlan.None? || s.agentPlan == Some(plan.agentPlan)) && s.policyFile != Some(plan.policy)
  {
  }
}

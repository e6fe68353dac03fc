/** One application-factory run: planning, approval, bootstrap, review and integration on durable records. */
module FactoryLifecycle {
  import opened Collections
  import opened Sorting

  datatype ApprovalVerdict = Approve | Reject | Revise

  datatype Approval = Approval(
    id: string, subjectRef: string, verdict: ApprovalVerdict, reason: string, decidedBy: string, evidence: seq<string>)

  datatype ReviewVerdict = Accept | Refuse | Rework | Escalate

  datatype Review = Review(
    id: string, taskId: string, commit: string, verdict: ReviewVerdict, reason: string, paths: seq<string>,
      evidence: seq<string>)

  datatype EngineeringLane = EngineeringLane(id: string, integrationOwned: bool, assurance: bool, commands: seq<string>)

  datatype Bootstrap = Bootstrap(baseCommit: string, integrationBranch: string, lanes: set<string>)

  datatype PlanningState = Blocked | PendingApproval

  /** The planning record. A blocked record names no approval subject. */
  datatype Record = Record(
    planning: PlanningState, subjectRef: Option<string>, payload: string, lanes: seq<EngineeringLane>,
    tasks: set<string>, bootstrap: Option<Bootstrap>, superseded: set<string>)

  datatype TaskResult = TaskResult(commit: Option<string>, succeeded: bool)

  datatype HandoffStatus = Succeeded | Failed | Stopped

  /** Why the integration authority blocks a request. */
  datatype BlockReason =
    | NotAutomatic
    | NotClean
    | WrongBranch
    | BaselineDiffers
    | ReviewsMissing(tasks: seq<string>)
    | NotAccepted(tasks: seq<string>)
    | CommitsUnavailable(tasks: seq<string>)
    | Superseded(task: string)
    | AlreadyIntegrated(task: string)
    | NotApplicable(task: string)
    | PathsDiffer(task: string)

  datatype Handoff = Handoff(
    status: HandoffStatus, commit: Option<string>, reviewRefs: seq<string>, reason: Option<BlockReason>,
      evidence: seq<string>)

  /**
    The planning record, the lifecycle records, whether the repository holds files, the task results, and beside them
    the saved agent plan and the provider policy file.
   */
  datatype State = State(
    record: Option<Record>, approvals: map<string, Approval>, reviews: map<string, Review>, unmet: map<string, string>,
    handoff: Option<Handoff>, populated: bool, results: map<string, TaskResult>, agentPlan: Option<string>,
    policyFile: Option<string>)

  datatype FactoryError =
    | NoRecord | DifferentAgentPlan | DifferentPlan | DifferentUnmet | WrongSubject | AlreadyDecided | DifferentApproval
    | NotApproved | AlreadyBootstrapped | RepositoryNotEmpty | BootstrapFailed | NotBootstrapped
    | WrongTask | TaskUnavailable | NotInspectable | WrongCommit | WrongPaths | AcceptanceNotPermitted | InvalidVerdict
    | AlreadyReviewed | DifferentReview | DuplicateDecision | PickFailed | DifferentHandoff

  // ---------------------------------------------------------------- approval state

  datatype ApprovalState = Planned(planning: PlanningState) | Approved | Rejected | RevisionRequested

  function Relevant(record: Record, approvals: map<string, Approval>): set<string> {
    set id | id in approvals && record.subjectRef == Some(approvals[id].subjectRef)
  }

  /** `_approval_state`: the first decision, by id, about the recorded subject. */
  function ApprovalStateOf(record: Record, approvals: map<string, Approval>): ApprovalState {
    var relevant := Relevant(record, approvals);
    if relevant == {} then Planned(record.planning)
    else
      match approvals[Least(relevant)].verdict
      case Approve => Approved
      case Reject => Rejected
      case Revise => RevisionRequested
  }

  predicate IsApproved(s: State) {
    s.record.Some? && ApprovalStateOf(s.record.value, s.approvals) == Approved
  }

  predicate IsBootstrapped(s: State) {
    s.record.Some? && s.record.value.bootstrap.Some?
  }

  // ---------------------------------------------------------------- planning and approval

  /** `_write_record(..., create=True)` */
  function CreateRecord(s: State, record: Record): (State, Option<FactoryError>) {
    if s.record.Some? then (s, if s.record.value == record then None else Some(DifferentPlan))
    else (s.(record := Some(record)), None)
  }

  /** What a successful planning computes; the subject reference is the digest of payload, agent plan and policy. */
  datatype FactoryPlan = FactoryPlan(
    subjectRef: string, payload: string, lanes: seq<EngineeringLane>, tasks: set<string>, agentPlan: string,
    policy: string)

  function PlannedRecord(plan: FactoryPlan): Record {
    Record(PendingApproval, Some(plan.subjectRef), plan.payload, plan.lanes, plan.tasks, None, {})
  }

  /** `plan`: the agent plan is saved, then the policy file is written, and the record is created last. */
  function PlanStep(s: State, plan: FactoryPlan): (State, Option<FactoryError>) {
    if s.agentPlan.Some? && s.agentPlan.value != plan.agentPlan then (s, Some(DifferentAgentPlan))
    else
      CreateRecord(s.(agentPlan := Some(plan.agentPlan), policyFile := Some(plan.policy)), PlannedRecord(plan))
  }

  function BlockedRecord(payload: string): Record {
    Record(Blocked, None, payload, [], {}, None, {})
  }

  datatype Unmet = Unmet(id: string, content: string)

  /** Unmet requirements are written one by one; a clash raises and leaves the earlier ones in place. */
  function RecordUnmet(unmet: map<string, string>, items: seq<Unmet>): (map<string, string>, bool)
    decreases |items|
  {
    if items == [] then (unmet, true)
    else if items[0].id in unmet && unmet[items[0].id] != items[0].content then (unmet, false)
    else RecordUnmet(unmet[items[0].id := items[0].content], items[1..])
  }

  function PlanBlocked(s: State, payload: string, items: seq<Unmet>): (State, Option<FactoryError>) {
    var (unmet, ok) := RecordUnmet(s.unmet, items);
    if !ok then (s.(unmet := unmet), Some(DifferentUnmet)) else CreateRecord(s.(unmet := unmet), BlockedRecord(payload))
  }

  function ApproveStep(s: State, d: Approval): (State, Option<FactoryError>) {
    if s.record.None? then (s, Some(NoRecord))
    else if s.record.value.subjectRef != Some(d.subjectRef) then (s, Some(WrongSubject))
    else if s.approvals != map[] && d !in s.approvals.Values then (s, Some(AlreadyDecided))
    else if d.id in s.approvals && s.approvals[d.id] != d then (s, Some(DifferentApproval))
    else (s.(approvals := s.approvals[d.id := d]), None)
  }

  /** How far a bootstrap gets: generation fails, a step after the repository was filled fails, or none does. */
  datatype Attempt = FailsEarly | FailsLate | Succeeds(bootstrap: Bootstrap)

  /** The repository is filled first, and the record is rewritten last. */
  function BootstrapStep(s: State, attempt: Attempt): (State, Option<FactoryError>) {
    if s.record.None? then (s, Some(NoRecord))
    else if !IsApproved(s) then (s, Some(NotApproved))
    else if s.record.value.bootstrap.Some? then (s, Some(AlreadyBootstrapped))
    else if s.populated then (s, Some(RepositoryNotEmpty))
    else
      match attempt
      case FailsEarly => (s, Some(BootstrapFailed))
      case FailsLate => (s.(populated := true), Some(BootstrapFailed))
      case Succeeds(b) => (s.(populated := true, record := Some(s.record.value.(bootstrap := Some(b)))), None)
  }

  /** Execution hands over to the provider service, which replaces task results. */
  function ExecuteStep(s: State, results: map<string, TaskResult>): (State, Option<FactoryError>) {
    if s.record.None? then (s, Some(NoRecord))
    else if !IsApproved(s) then (s, Some(NotApproved))
    else if s.record.value.bootstrap.None? then (s, Some(NotBootstrapped))
    else (s.(results := results), None)
  }

  // ---------------------------------------------------------------- review

  datatype Requested = Default | Named(verdict: ReviewVerdict) | Unrecognised

  /** The caller's decision file. */
  datatype RawReview = RawReview(
    id: string, taskId: Option<string>, commit: Option<string>, paths: Option<seq<string>>, requested: Requested,
      reason: Option<string>)

  /** What the read-only inspection of the candidate commit yields; its decision is Accept when nothing is wrong. */
  datatype Inspection = Inspection(
    decision: ReviewVerdict, paths: seq<string>, reason: string, evidence: seq<string>)

  /** The decision to record, or the reason to refuse it, before any state is touched. */
  function JudgeReview(s: State, taskId: string, raw: RawReview, inspection: Option<Inspection>)
    : Result<Review, FactoryError>
  {
    if s.record.None? then Err(NoRecord)
    else if !IsApproved(s) then Err(NotApproved)
    else if s.record.value.bootstrap.None? then Err(NotBootstrapped)
    else if raw.taskId.Some? && raw.taskId.value != taskId then Err(WrongTask)
    else if taskId !in s.record.value.tasks || taskId !in s.results ||
      taskId !in s.record.value.bootstrap.value.lanes then Err(TaskUnavailable)
    else if inspection.None? || s.results[taskId].commit.None? then Err(NotInspectable)
    else
      var found := inspection.value;
      var commit := s.results[taskId].commit.value;
      if raw.commit.Some? && raw.commit.value != commit then Err(WrongCommit)
      else if raw.paths.Some? && raw.paths.value != found.paths then Err(WrongPaths)
      else if raw.requested.Unrecognised? then Err(InvalidVerdict)
      else
        var verdict := if raw.requested.Named? then raw.requested.verdict else found.decision;
        if verdict == Accept && found.decision != Accept then Err(AcceptanceNotPermitted)
        else
          var reason := if raw.reason.Some? then raw.reason.value else found.reason;
          var recorded := Review(raw.id, taskId, commit, verdict, reason, found.paths, found.evidence);
          if (exists id :: id in s.reviews && SameCandidate(s.reviews[id], recorded)) &&
            recorded !in s.reviews.Values then Err(AlreadyReviewed)
          else Ok(recorded)
  }

  // What a review has to meet, and what it records, apart from the order of the tests.

  /** The run is bootstrapped under its approval, and the task has a lane and a result. */
  ghost predicate TaskAvailable(s: State, taskId: string) {
    && taskId in s.results
    && IsBootstrapped(s) && taskId in s.record.value.tasks && taskId in s.record.value.bootstrap.value.lanes
  }

  /** The caller's file agrees with task, commit and paths wherever it names them. */
  ghost predicate NamesThis(raw: RawReview, taskId: string, commit: string, found: Inspection) {
    && (raw.taskId.Some? ==> raw.taskId == Some(taskId))
    && (raw.commit.Some? ==> raw.commit == Some(commit))
    && (raw.paths.Some? ==> raw.paths == Some(found.paths))
  }

  /** The verdict asked for is known, and acceptance is asked for only where the inspection accepts. */
  ghost predicate MayAsk(requested: Requested, found: Inspection) {
    match requested
    case Default => true
    case Named(verdict) => verdict == Accept ==> found.decision == Accept
    case Unrecognised => false
  }

  ghost predicate Reviewable(s: State, taskId: string, raw: RawReview, inspection: Option<Inspection>) {
    && IsApproved(s) && TaskAvailable(s, taskId) && inspection.Some? && s.results[taskId].commit.Some?
    && NamesThis(raw, taskId, s.results[taskId].commit.value, inspection.value)
    && MayAsk(raw.requested, inspection.value)
  }

  /**
    `d` is the decision of the caller's file on the inspected candidate: the verdict asked for or else the inspected
    one, the reason given or else the inspected one, and the inspected paths and evidence.
   */
  ghost predicate Decides(d: Review, taskId: string, raw: RawReview, found: Inspection) {
    && d.id == raw.id && d.taskId == taskId && d.paths == found.paths && d.evidence == found.evidence
    && (raw.requested.Named? ==> d.verdict == raw.requested.verdict)
    && (raw.requested.Default? ==> d.verdict == found.decision)
    && (if raw.reason.Some? then raw.reason == Some(d.reason) else d.reason == found.reason)
    && (d.verdict == Accept ==> found.decision == Accept)
  }

  /** The candidate already carries another decision. */
  ghost predicate DecidedOtherwise(s: State, r: Review) {
    && (exists id :: id in s.reviews && SameCandidate(s.reviews[id], r))
    && forall id :: id in s.reviews ==> s.reviews[id] != r
  }

  /** `d` is the decision on the task's current commit, nothing speaks against recording it. */
  ghost predicate Favourable(s: State, taskId: string, raw: RawReview, inspection: Option<Inspection>, d: Review) {
    && Reviewable(s, taskId, raw, inspection) && s.results[taskId].commit == Some(d.commit)
    && Decides(d, taskId, raw, inspection.value) && !DecidedOtherwise(s, d)
  }

  /** What is proposed for the record once the tests before it pass. */
  ghost function Proposed(s: State, taskId: string, raw: RawReview, found: Inspection, commit: string): Review {
    var verdict := if raw.requested.Named? then raw.requested.verdict else found.decision;
    var reason := if raw.reason.Some? then raw.reason.value else found.reason;
    Review(raw.id, taskId, commit, verdict, reason, found.paths, found.evidence)
  }

  lemma ProposedDecides(s: State, taskId: string, raw: RawReview, inspection: Option<Inspection>, d: Review)
    requires Reviewable(s, taskId, raw, inspection) && s.results[taskId].commit == Some(d.commit)
    ensures Decides(d, taskId, raw, inspection.value) <==> d == Proposed(s, taskId, raw, inspection.value, d.commit)
  {
  }

  /** A reviewable candidate is refused exactly when it is decided otherwise. */
  lemma ReviewableIsJudged(s: State, taskId: string, raw: RawReview, inspection: Option<Inspection>)
    requires Reviewable(s, taskId, raw, inspection)
    ensures var d := Proposed(s, taskId, raw, inspection.value, s.results[taskId].commit.value);
      JudgeReview(s, taskId, raw, inspection) == if DecidedOtherwise(s, d) then Err(AlreadyReviewed) else Ok(d)
  {
    var d := Proposed(s, taskId, raw, inspection.value, s.results[taskId].commit.value);
    assert d in s.reviews.Values <==> exists id :: id in s.reviews && s.reviews[id] == d;
  }

  lemma UnreviewableIsFault(s: State, taskId: string, raw: RawReview, inspection: Option<Inspection>)
    requires !Reviewable(s, taskId, raw, inspection)
    ensures var r := JudgeReview(s, taskId, raw, inspection);
      r.Err? && ReviewFault(s, taskId, raw, inspection, r.error)
  {
  }

  /** A review is judged favourably exactly when it is reviewable and its candidate not decided otherwise. */
  lemma JudgeReviewMeans(s: State, taskId: string, raw: RawReview, inspection: Option<Inspection>)
    ensures var r := JudgeReview(s, taskId, raw, inspection);
      && (r.Ok? <==> exists d: Review :: Favourable(s, taskId, raw, inspection, d))
      && (r.Ok? ==> Favourable(s, taskId, raw, inspection, r.value))
      && (r.Err? ==> ReviewFault(s, taskId, raw, inspection, r.error))
  {
    if Reviewable(s, taskId, raw, inspection) {
      var d := Proposed(s, taskId, raw, inspection.value, s.results[taskId].commit.value);
      ReviewableIsJudged(s, taskId, raw, inspection);
      ProposedDecides(s, taskId, raw, inspection, d);
      forall e: Review | Favourable(s, taskId, raw, inspection, e) ensures e == d {
        ProposedDecides(s, taskId, raw, inspection, e);
      }
      assert !DecidedOtherwise(s, d) ==> Favourable(s, taskId, raw, inspection, d);
    } else {
      UnreviewableIsFault(s, taskId, raw, inspection);
    }
  }

  /** The tests before the one that `e` reports pass, and that one fails. */
  ghost predicate ReviewFault(s: State, taskId: string, raw: RawReview, inspection: Option<Inspection>,
      e: FactoryError) {
    if s.record.None? then e == NoRecord
    else if !IsApproved(s) then e == NotApproved
    else if !IsBootstrapped(s) then e == NotBootstrapped
    else
      match e
      case WrongTask => raw.taskId.Some? && raw.taskId != Some(taskId)
      case TaskUnavailable => (raw.taskId.Some? ==> raw.taskId == Some(taskId)) && !TaskAvailable(s, taskId)
      case NotInspectable => TaskAvailable(s, taskId) && (inspection.None? || s.results[taskId].commit.None?)
      case _ =>
        && TaskAvailable(s, taskId) && inspection.Some? && s.results[taskId].commit.Some?
        && var found, commit := inspection.value, s.results[taskId].commit.value;
           match e
           case WrongCommit => raw.commit.Some? && raw.commit != Some(commit)
           case WrongPaths => raw.paths.Some? && raw.paths != Some(found.paths)
           case InvalidVerdict => NamesThis(raw, taskId, commit, found) && raw.requested.Unrecognised?
           case AcceptanceNotPermitted =>
             && NamesThis(raw, taskId, commit, found)
             && raw.requested == Named(Accept) && found.decision != Accept
           case AlreadyReviewed =>
             && Reviewable(s, taskId, raw, inspection)
             && exists d: Review :: d.commit == commit && Decides(d, taskId, raw, found) && DecidedOtherwise(s, d)
           case _ => false
  }

  predicate SameCandidate(a: Review, b: Review) {
    a.taskId == b.taskId && a.commit == b.commit
  }

  /** Commits of earlier reviews of the task, other than the one just reviewed. */
  function EarlierCommits(reviews: map<string, Review>, r: Review): set<string> {
    set id | id in reviews && reviews[id].taskId == r.taskId && reviews[id].commit != r.commit :: reviews[id].commit
  }

  /** The record is rewritten first; recording the review may still raise on a reused decision id. */
  function RecordReviewStep(s: State, r: Review): (State, Result<Review, FactoryError>)
    requires s.record.Some?
  {
    var superseded := s.record.value.superseded + EarlierCommits(s.reviews, r);
    var marked := s.(record := Some(s.record.value.(superseded := superseded)));
    if r.id in s.reviews && s.reviews[r.id] != r then (marked, Err(DifferentReview))
    else (marked.(reviews := s.reviews[r.id := r]), Ok(r))
  }

  function ReviewStep(s: State, taskId: string, raw: RawReview, inspection: Option<Inspection>)
    : (State, Result<Review, FactoryError>)
  {
    var judged := JudgeReview(s, taskId, raw, inspection);
    if judged.Err? then (s, judged) else RecordReviewStep(s, judged.value)
  }

  // ---------------------------------------------------------------- integration

  function RequiredLanes(lanes: seq<EngineeringLane>): (r: seq<string>)
    ensures |r| <= |lanes|
  {
    if lanes == [] then []
    else (if !lanes[0].integrationOwned && !lanes[0].assurance then [lanes[0].id] else []) + RequiredLanes(lanes[1..])
  }

  /** Required are the lanes that neither belong to the integration nor assure. */
  lemma {:induction false} RequiredMembers(lanes: seq<EngineeringLane>, id: string)
    ensures id in RequiredLanes(lanes) <==>
      exists l :: l in lanes && l.id == id && !l.integrationOwned && !l.assurance
  {
    if lanes != [] {
      RequiredMembers(lanes[1..], id);
      assert lanes == [lanes[0]] + lanes[1..];
    }
  }

  /** The required tasks come in lane order. */
  lemma {:induction false} RequiredInOrder(before: seq<EngineeringLane>, after: seq<EngineeringLane>)
    ensures RequiredLanes(before + after) == RequiredLanes(before) + RequiredLanes(after)
  {
    if before == [] {
      assert before + after == after;
    } else {
      var l, rest := before[0], before[1..];
      assert before == [l] + rest && before + after == [l] + (rest + after);
      RequiredHead(l, rest);
      RequiredHead(l, rest + after);
      RequiredInOrder(rest, after);
    }
  }

  lemma RequiredHead(l: EngineeringLane, rest: seq<EngineeringLane>)
    ensures RequiredLanes([l] + rest) ==
      (if !l.integrationOwned && !l.assurance then [l.id] else []) + RequiredLanes(rest)
  {
    assert ([l] + rest)[1..] == rest;
  }

  /** A stored review that speaks about a required task's current commit. */
  predicate Current(s: State, required: seq<string>, r: Review) {
    r.taskId in required && r.taskId in s.results && s.results[r.taskId].commit == Some(r.commit)
  }

  function SelectCurrent(s: State, required: seq<string>, ids: seq<string>): (r: seq<Review>)
    requires forall id :: id in ids ==> id in s.reviews
    ensures forall x :: x in r <==> exists id :: id in ids && s.reviews[id] == x && Current(s, required, x)
  {
    if ids == [] then []
    else
      var rest := SelectCurrent(s, required, ids[1..]);
      assert ids == [ids[0]] + ids[1..];
      if Current(s, required, s.reviews[ids[0]]) then [s.reviews[ids[0]]] + rest else rest
  }

  /** The reviews `integrate` hands over, in the order of their ids. */
  function CurrentReviews(s: State, required: seq<string>): (r: seq<Review>)
    ensures forall x :: x in r <==> exists id :: id in s.reviews && s.reviews[id] == x && Current(s, required, x)
  {
    var ids := SortedSet(s.reviews.Keys);
    assert forall id :: id in ids <==> id in ToSet(ids);
    SelectCurrent(s, required, ids)
  }

  /** The repository as the integration authority sees it. */
  datatype Repository = Repository(
    clean: bool, branch: string, head: string, known: string -> bool, integrated: string -> bool,
    isAncestor: (string, string) -> bool, changedPaths: (string, string) -> seq<string>, picks: string -> bool,
    verified: bool, integrationCommit: string, evidence: seq<string>)

  /** The table `by_task`; None when a task occurs twice. */
  function ByTask(reviews: seq<Review>): Option<map<string, Review>> {
    if reviews == [] then Some(map[])
    else
      var last := |reviews| - 1;
      var before := ByTask(reviews[..last]);
      if before.None? || reviews[last].taskId in before.value then None
      else Some(before.value[reviews[last].taskId := reviews[last]])
  }

  function Halted(reason: BlockReason): Handoff {
    Handoff(Stopped, None, [], Some(reason), [])
  }

  /** The tasks that meet a condition, in the given order. */
  function Select(tasks: seq<string>, meets: string -> bool): (r: seq<string>)
    ensures forall t :: t in r <==> t in tasks && meets(t)
  {
    if tasks == [] then []
    else
      var last := |tasks| - 1;
      assert tasks == tasks[..last] + [tasks[last]];
      Select(tasks[..last], meets) + if meets(tasks[last]) then [tasks[last]] else []
  }

  /** The per-candidate checks; the first failing candidate blocks. */
  function CheckCandidates(accepted: seq<Review>, superseded: set<string>, base: string,
      repo: Repository): Option<BlockReason> {
    if accepted == [] then None
    else
      var d := accepted[0];
      if d.commit in superseded then Some(Superseded(d.taskId))
      else if repo.integrated(d.commit) then Some(AlreadyIntegrated(d.taskId))
      else if !repo.isAncestor(base, d.commit) then Some(NotApplicable(d.taskId))
      else if repo.changedPaths(d.commit, base) != d.paths then Some(PathsDiffer(d.taskId))
      else CheckCandidates(accepted[1..], superseded, base, repo)
  }

  function Pick(required: seq<string>, table: map<string, Review>): (r: seq<Review>)
    requires forall t :: t in required ==> t in table
    ensures |r| == |required| && forall i :: 0 <= i < |r| ==> r[i] == table[required[i]]
  {
    seq(|required|, i requires 0 <= i < |required| => table[required[i]])
  }

  function Refs(accepted: seq<Review>): (r: seq<string>)
    ensures |r| == |accepted| && forall i :: 0 <= i < |r| ==> r[i] == accepted[i].id
  {
    seq(|accepted|, i requires 0 <= i < |accepted| => accepted[i].id)
  }

  /** The tests on the repository and its branch, before any review is looked at. */
  function CheckRepository(boot: Bootstrap, repo: Repository): Option<BlockReason> {
    if boot.integrationBranch == "main" then Some(NotAutomatic)
    else if !repo.clean then Some(NotClean)
    else if repo.branch != boot.integrationBranch then Some(WrongBranch)
    else if boot.baseCommit == "" || repo.head != boot.baseCommit then Some(BaselineDiffers)
    else None
  }

  /** The tests on the required tasks, given the table of reviews. */
  function CheckReviews(required: seq<string>, table: map<string, Review>, repo: Repository): (r: Option<BlockReason>)
    ensures r.None? ==> forall t :: t in required ==>
      t in table && table[t].verdict == Accept && repo.known(table[t].commit)
  {
    var missing := Select(required, t => t !in table);
    var rejected := Select(required, t => t in table && table[t].verdict != Accept);
    var unavailable := Select(required, t => t in table && !repo.known(table[t].commit));
    assert missing == [] ==> forall t :: t in required ==> t !in missing;
    assert rejected == [] ==> forall t :: t in required ==> t !in rejected;
    assert unavailable == [] ==> forall t :: t in required ==> t !in unavailable;
    if missing != [] then Some(ReviewsMissing(missing))
    else if rejected != [] then Some(NotAccepted(rejected))
    else if unavailable != [] then Some(CommitsUnavailable(unavailable))
    else None
  }

  /**
    `ApplicationIntegrationService.integrate`: a handoff, or the exception on a doubly decided task or a failing
    pick.
   */
  function Integrate(required: seq<string>, reviews: seq<Review>, boot: Bootstrap, superseded: set<string>,
      repo: Repository)
    : Result<Handoff, FactoryError>
  {
    var guard := CheckRepository(boot, repo);
    if guard.Some? then Ok(Halted(guard.value))
    else
      var table := ByTask(reviews);
      if table.None? then Err(DuplicateDecision)
      else
        var refused := CheckReviews(required, table.value, repo);
        if refused.Some? then Ok(Halted(refused.value))
        else
          var accepted := Pick(required, table.value);
          var problem := CheckCandidates(accepted, superseded, boot.baseCommit, repo);
          if problem.Some? then Ok(Halted(problem.value))
          else if exists d :: d in accepted && !repo.picks(d.commit) then Err(PickFailed)
          else
            var status := if repo.verified then Succeeded else Failed;
            Ok(Handoff(status, Some(repo.integrationCommit), Refs(accepted), None, repo.evidence))
  }

  /** What integrating a bootstrapped run yields, before anything is recorded. */
  function Integration(s: State, repo: Repository): Result<Handoff, FactoryError>
    requires IsBootstrapped(s)
  {
    var required := RequiredLanes(s.record.value.lanes);
    Integrate(required, CurrentReviews(s, required), s.record.value.bootstrap.value, s.record.value.superseded, repo)
  }

  /** `record_handoff`: the first handoff stays. */
  function RecordHandoff(s: State, h: Handoff): (State, Result<Handoff, FactoryError>) {
    if s.handoff.Some? && s.handoff.value != h then (s, Err(DifferentHandoff)) else (s.(handoff := Some(h)), Ok(h))
  }

  function IntegrateStep(s: State, repo: Repository): (State, Result<Handoff, FactoryError>) {
    if s.record.None? then (s, Err(NoRecord))
    else if !IsApproved(s) then (s, Err(NotApproved))
    else if s.record.value.bootstrap.None? then (s, Err(NotBootstrapped))
    else
      var h := Integration(s, repo);
      if h.Err? then (s, h) else RecordHandoff(s, h.value)
  }
}

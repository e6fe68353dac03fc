/** Runs of the factory that end where its documentation does not lead one to expect. */
module FactoryWitnesses {
  import opened Collections
  import opened FactoryLifecycle
  import opened FactorySafety

  ghost predicate Reachable(s: State) {
    exists ops :: Run(FRESH, ops) == s
  }

  lemma {:induction false} RunAppend(s: State, ops: seq<Operation>, op: Operation)
    ensures Run(s, ops + [op]) == Apply(Run(s, ops), op)
    decreases |ops|
  {
    if ops == [] {
      assert Run(Apply(s, op), []) == Apply(s, op);
      assert ([op])[1..] == [];
    } else {
      assert (ops + [op])[0] == ops[0] && (ops + [op])[1..] == ops[1..] + [op];
      RunAppend(Apply(s, ops[0]), ops[1..], op);
    }
  }

  lemma ReachNext(s: State, op: Operation)
    requires Reachable(s)
    ensures Reachable(Apply(s, op))
  {
    var ops :| Run(FRESH, ops) == s;
    RunAppend(FRESH, ops, op);
    assert Run(FRESH, ops + [op]) == Apply(s, op);
  }

  lemma ReachableIsGood(s: State)
    requires Reachable(s)
    ensures Good(s)
  {
    var ops :| Run(FRESH, ops) == s;
    RunKeepsGood(FRESH, ops);
  }

  // ---------------------------------------------------------------- a run with one reviewed task

  const SUBJECT := "profile@1"
  const TASK := "web"
  const LANES := [EngineeringLane(TASK, false, false, []), EngineeringLane("integration", true, false, [])]
  const BOOT := Bootstrap("base", "factory/run/integration", {TASK})
  const APPROVAL := Approval("a1", SUBJECT, ApprovalVerdict.Approve, "fine", "lead", [])

  const PLAN := FactoryPlan(SUBJECT, "", LANES, {TASK}, "tasks", "capped")

  function Planned(bootstrap: Option<Bootstrap>, superseded: set<string>): Record {
    Record(PendingApproval, Some(SUBJECT), "", LANES, {TASK}, bootstrap, superseded)
  }

  /** The run after approval and bootstrap, with the given superseded commits, reviews, handoff and current commit. */
  function At(superseded: set<string>, reviews: map<string, Review>, handoff: Option<Handoff>,
      results: map<string, TaskResult>): State {
    State(Some(Planned(Some(BOOT), superseded)), map["a1" := APPROVAL], reviews, map[], handoff, true, results,
      Some(PLAN.agentPlan), Some(PLAN.policy))
  }

  function OnCommit(commit: string): map<string, TaskResult> {
    map[TASK := TaskResult(Some(commit), true)]
  }

  function Accepted(id: string, commit: string): Review {
    Review(id, TASK, commit, Accept, "fine", ["web/a"], [])
  }

  function Asked(id: string): RawReview {
    RawReview(id, None, None, None, Default, None)
  }

  const FOUND := Some(Inspection(Accept, ["web/a"], "fine", []))

  lemma ApprovedHere(s: State, bootstrap: Option<Bootstrap>, superseded: set<string>)
    requires s.record == Some(Planned(bootstrap, superseded)) && s.approvals == map["a1" := APPROVAL]
    ensures IsApproved(s)
  {
    assert ApprovalsOk(s);
    ApprovalStateReads(s);
    assert "a1" in s.approvals;
  }

  lemma ApprovedIsReachable()
    ensures Reachable(State(Some(Planned(None, {})), map["a1" := APPROVAL], map[], map[], None, false, map[],
      Some(PLAN.agentPlan), Some(PLAN.policy)))
  {
    assert Run(FRESH, []) == FRESH;
    ReachNext(FRESH, PlanReady(PLAN));
    var planned := State(Some(Planned(None, {})), map[], map[], map[], None, false, map[],
      Some(PLAN.agentPlan), Some(PLAN.policy));
    assert Apply(FRESH, PlanReady(PLAN)) == planned;
    ReachNext(planned, DoApprove(APPROVAL));
  }

  lemma StartIsReachable()
    ensures Reachable(At({}, map[], None, map[]))
  {
    ApprovedIsReachable();
    var approved := State(Some(Planned(None, {})), map["a1" := APPROVAL], map[], map[], None, false, map[],
      Some(PLAN.agentPlan), Some(PLAN.policy));
    ApprovedHere(approved, None, {});
    ReachNext(approved, DoBootstrap(Succeeds(BOOT)));
  }

  /** Reviewing the current commit with a favourable inspection records an acceptance and supersedes earlier commits. */
  lemma AcceptStep(superseded: set<string>, reviews: map<string, Review>, id: string, commit: string)
    requires forall a :: a in reviews && SameCandidate(reviews[a], Accepted(id, commit)) ==>
      reviews[a] == Accepted(id, commit)
    requires id in reviews ==> reviews[id] == Accepted(id, commit)
    ensures var s := At(superseded, reviews, None, OnCommit(commit));
      Apply(s, DoReview(TASK, Asked(id), FOUND)) ==
      At(superseded + EarlierCommits(reviews, Accepted(id, commit)), reviews[id := Accepted(id, commit)], None,
        OnCommit(commit))
  {
    var s := At(superseded, reviews, None, OnCommit(commit));
    ApprovedHere(s, Some(BOOT), superseded);
    if a :| a in reviews && SameCandidate(reviews[a], Accepted(id, commit)) {
      assert Accepted(id, commit) in reviews.Values;
    }
    assert JudgeReview(s, TASK, Asked(id), FOUND) == Ok(Accepted(id, commit));
  }

  function Once(): map<string, Review> {
    map["r1" := Accepted("r1", "c1")]
  }

  lemma ReviewedIsReachable()
    ensures Reachable(At({}, Once(), None, OnCommit("c1")))
  {
    StartIsReachable();
    ReachNext(At({}, map[], None, map[]), Progress(OnCommit("c1")));
    AcceptStep({}, map[], "r1", "c1");
    assert {} + EarlierCommits(map[], Accepted("r1", "c1")) == {};
    assert map[]["r1" := Accepted("r1", "c1")] == Once();
    ReachNext(At({}, map[], None, OnCommit("c1")), DoReview(TASK, Asked("r1"), FOUND));
  }

  // ---------------------------------------------------------------- a blocked integration closes the run

  function Repo(clean: bool): Repository {
    Repository(clean, "factory/run/integration", "base", _ => true, _ => false, (_, _) => true, (_, _) => ["web/a"],
      _ => true, true, "merged", [])
  }

  lemma OneLane()
    ensures RequiredLanes(LANES) == [TASK]
  {
    var rest := LANES[1..];
    assert rest == [EngineeringLane("integration", true, false, [])];
    assert rest[1..] == [];
    assert RequiredLanes(rest) == [];
  }

  lemma OneReview(results: map<string, TaskResult>, handoff: Option<Handoff>)
    requires results == OnCommit("c1")
    ensures CurrentReviews(At({}, Once(), handoff, results), [TASK]) == [Accepted("r1", "c1")]
  {
    var s := At({}, Once(), handoff, results);
    assert ReviewsOk(s);
    OneCurrentDecision(s, [TASK]);
    var current := CurrentReviews(s, [TASK]);
    assert "r1" in s.reviews && Current(s, [TASK], s.reviews["r1"]);
    OnlyOne(current, Accepted("r1", "c1"));
  }

  lemma OnlyOne(current: seq<Review>, r: Review)
    requires OnePerTask(current) && r in current && forall d :: d in current ==> d == r
    ensures current == [r]
  {
    assert forall i :: 0 <= i < |current| ==> current[i] in current;
    assert |current| >= 2 ==> current[0].taskId != current[1].taskId;
  }

  lemma OneSelected(meets: string -> bool)
    ensures Select([TASK], meets) == if meets(TASK) then [TASK] else []
  {
    assert [TASK][..0] == [];
  }

  lemma NothingRefused(table: map<string, Review>)
    requires table == map[TASK := Accepted("r1", "c1")]
    ensures CheckReviews([TASK], table, Repo(true)) == None
  {
    OneSelected(t => t !in table);
    OneSelected(t => t in table && table[t].verdict != Accept);
    OneSelected(t => t in table && !Repo(true).known(table[t].commit));
  }

  lemma CleanIntegrationSucceeds(handoff: Option<Handoff>)
    ensures Integration(At({}, Once(), handoff, OnCommit("c1")), Repo(true)) ==
      Ok(Handoff(Succeeded, Some("merged"), ["r1"], None, []))
  {
    OneLane();
    OneReview(OnCommit("c1"), handoff);
    var reviews := [Accepted("r1", "c1")];
    var table := map[TASK := Accepted("r1", "c1")];
    assert reviews[..0] == [] && ByTask(reviews[..0]) == Some(map[]) && map[][TASK := reviews[0]] == table;
    assert ByTask(reviews) == Some(table);
    NothingRefused(table);
    assert Pick([TASK], table) == reviews && reviews[1..] == [] && Refs(reviews) == ["r1"];
  }

  /**
    A reachable run: the repository was not clean when the accepted candidate was first integrated, so the run has a
    blocked handoff; now it is clean and integrating would succeed, and the command is refused.
   */
  lemma BlockedHandoffRefusesSuccess() returns (s: State, repo: Repository)
    ensures Reachable(s) && s.handoff == Some(Halted(NotClean))
    ensures IsBootstrapped(s) && Integration(s, repo).Ok? && Integration(s, repo).value.status == Succeeded
    ensures IntegrateStep(s, repo) == (s, Err(DifferentHandoff))
  {
    var before := At({}, Once(), None, OnCommit("c1"));
    ReviewedIsReachable();
    ApprovedHere(before, Some(BOOT), {});
    s, repo := At({}, Once(), Some(Halted(NotClean)), OnCommit("c1")), Repo(true);
    assert Apply(before, DoIntegrate(Repo(false))) == s;
    ReachNext(before, DoIntegrate(Repo(false)));
    ApprovedHere(s, Some(BOOT), {});
    CleanIntegrationSucceeds(s.handoff);
  }

  // ---------------------------------------------------------------- going back to an earlier commit

  /** Without a live review of a required task no integration of the state can go through. */
  lemma StrandedIsBlocked(s: State, task: string, repo: Repository)
    requires Good(s) && s.record.Some? && task in RequiredLanes(s.record.value.lanes)
    requires forall id :: LiveReview(s, id) ==> s.reviews[id].taskId != task
    ensures var r := IntegrateStep(s, repo).1; r.Ok? ==> r.value.status.Stopped?
  {
    var r := IntegrateStep(s, repo).1;
    if r.Ok? && !r.value.status.Stopped? {
      SuccessNeedsLive(s, task, repo);
    }
  }

  lemma SuccessNeedsLive(s: State, task: string, repo: Repository)
    requires Good(s) && s.record.Some? && task in RequiredLanes(s.record.value.lanes)
    requires var r := IntegrateStep(s, repo).1; r.Ok? && !r.value.status.Stopped?
    ensures exists id :: LiveReview(s, id) && s.reviews[id].taskId == task
  {
    var required := RequiredLanes(s.record.value.lanes);
    var i :| 0 <= i < |required| && required[i] == task;
    GoodHandoff(s, repo, i);
    assert LiveReview(s, IntegrateStep(s, repo).1.value.reviewRefs[i]);
  }

  function Twice(): map<string, Review> {
    map["r1" := Accepted("r1", "c1"), "r2" := Accepted("r2", "c2")]
  }

  lemma MovedOnIsReachable()
    ensures Reachable(At({"c1"}, Twice(), None, OnCommit("c2")))
  {
    ReviewedIsReachable();
    ReachNext(At({}, Once(), None, OnCommit("c1")), Progress(OnCommit("c2")));
    AcceptStep({}, Once(), "r2", "c2");
    assert "r1" in Once();
    assert {} + EarlierCommits(Once(), Accepted("r2", "c2")) == {"c1"};
    assert Once()["r2" := Accepted("r2", "c2")] == Twice();
    ReachNext(At({}, Once(), None, OnCommit("c2")), DoReview(TASK, Asked("r2"), FOUND));
  }

  lemma ReturnedIsReachable()
    ensures Reachable(At({"c1", "c2"}, Twice(), None, OnCommit("c1")))
  {
    MovedOnIsReachable();
    ReachNext(At({"c1"}, Twice(), None, OnCommit("c2")), Progress(OnCommit("c1")));
    AcceptStep({"c1"}, Twice(), "r1", "c1");
    assert "r2" in Twice();
    assert {"c1"} + EarlierCommits(Twice(), Accepted("r1", "c1")) == {"c1", "c2"};
    assert Twice()["r1" := Accepted("r1", "c1")] == Twice();
    ReachNext(At({"c1"}, Twice(), None, OnCommit("c1")), DoReview(TASK, Asked("r1"), FOUND));
  }

  /**
    A reachable run: the task went from commit c1 to c2 and back, each was accepted, and now both are superseded. The
    current commit carries an acceptance, and still no repository lets the state be integrated.
   */
  lemma ReturningStrandsTheTask() returns (s: State)
    ensures Reachable(s) && s.results == OnCommit("c1") && "r1" in s.reviews && s.reviews["r1"] == Accepted("r1", "c1")
    ensures forall repo :: IntegrateStep(s, repo).1.Ok? ==> IntegrateStep(s, repo).1.value.status.Stopped?
  {
    s := At({"c1", "c2"}, Twice(), None, OnCommit("c1"));
    ReturnedIsReachable();
    ReachableIsGood(s);
    OneLane();
    assert forall id :: !LiveReview(s, id);
    forall repo ensures IntegrateStep(s, repo).1.Ok? ==> IntegrateStep(s, repo).1.value.status.Stopped? {
      StrandedIsBlocked(s, TASK, repo);
    }
  }

  // ---------------------------------------------------------------- a bootstrap that fails half-way

  /** A reachable run: approved, its repository filled, and no bootstrap on record. */
  lemma HalfBootstrapIsReachable() returns (s: State)
    ensures Reachable(s) && IsApproved(s) && HalfBootstrapped(s)
  {
    var approved := State(Some(Planned(None, {})), map["a1" := APPROVAL], map[], map[], None, false, map[],
      Some(PLAN.agentPlan), Some(PLAN.policy));
    ApprovedIsReachable();
    ApprovedHere(approved, None, {});
    ReachNext(approved, DoBootstrap(FailsLate));
    s := Apply(approved, DoBootstrap(FailsLate));
    ApprovedHere(s, None, {});
  }

  // ---------------------------------------------------------------- a policy nobody approved

  /**
    A reachable run: approved and bootstrapped under the capped policy, then planned again with another one. That call
    was refused, and an execution now reads the other policy.
   */
  lemma UnapprovedPolicyExecutes() returns (s: State, plan: FactoryPlan)
    ensures Reachable(s) && PlanStep(s, plan).1 == Some(DifferentPlan)
    ensures var t := PlanStep(s, plan).0;
      && Reachable(t) && IsApproved(t) && IsBootstrapped(t) && t.record.value.subjectRef == Some(PLAN.subjectRef)
      && plan.subjectRef != PLAN.subjectRef && plan.policy != PLAN.policy
      && ExecuteStep(t, map[]).1.None? && t.policyFile == Some(plan.policy)
  {
    s, plan := At({}, map[], None, map[]), FactoryPlan("profile@2", "", LANES, {TASK}, "tasks", "uncapped");
    StartIsReachable();
    PlanAfterBootstrap(s, plan);
    ReachNext(s, PlanReady(plan));
    ApprovedHere(PlanStep(s, plan).0, Some(BOOT), {});
  }
}

/** When the integration authority succeeds, raises or blocks, in terms of reviews and repository. */
module IntegrationTheorems {
  import opened Collections
  import opened FactoryLifecycle
  import opened FactorySafety

  ghost predicate RepositoryReady(boot: Bootstrap, repo: Repository) {
    && boot.integrationBranch != "main" && repo.clean && repo.branch == boot.integrationBranch
    && boot.baseCommit != "" && repo.head == boot.baseCommit
  }

  /** The tests before the one behind `reason` pass, and that one fails. */
  ghost predicate RepositoryFault(boot: Bootstrap, repo: Repository, reason: BlockReason) {
    match reason
    case NotAutomatic => boot.integrationBranch == "main"
    case NotClean => boot.integrationBranch != "main" && !repo.clean
    case WrongBranch => boot.integrationBranch != "main" && repo.clean && repo.branch != boot.integrationBranch
    case BaselineDiffers =>
      && boot.integrationBranch != "main" && repo.clean && repo.branch == boot.integrationBranch
      && (boot.baseCommit == "" || repo.head != boot.baseCommit)
    case _ => false
  }

  ghost predicate DecisionFor(reviews: seq<Review>, task: string, d: Review) {
    d in reviews && d.taskId == task
  }

  ghost predicate Decided(reviews: seq<Review>, task: string) {
    exists d :: DecisionFor(reviews, task, d)
  }

  ghost predicate AcceptedTask(reviews: seq<Review>, task: string) {
    exists d :: DecisionFor(reviews, task, d) && d.verdict == Accept
  }

  ghost predicate AvailableTask(reviews: seq<Review>, repo: Repository, task: string) {
    exists d :: DecisionFor(reviews, task, d) && repo.known(d.commit)
  }

  /** The candidate is live, new, based on the baseline, and changes what was reviewed. */
  ghost predicate Applicable(d: Review, superseded: set<string>, base: string, repo: Repository) {
    && d.commit !in superseded && !repo.integrated(d.commit) && repo.isAncestor(base, d.commit)
    && repo.changedPaths(d.commit, base) == d.paths
  }

  ghost predicate CandidateFault(d: Review, superseded: set<string>, base: string, repo: Repository,
      reason: BlockReason) {
    match reason
    case Superseded(task) => task == d.taskId && d.commit in superseded
    case AlreadyIntegrated(task) => task == d.taskId && d.commit !in superseded && repo.integrated(d.commit)
    case NotApplicable(task) =>
      && task == d.taskId && d.commit !in superseded && !repo.integrated(d.commit)
      && !repo.isAncestor(base, d.commit)
    case PathsDiffer(task) =>
      && task == d.taskId && d.commit !in superseded && !repo.integrated(d.commit)
      && repo.isAncestor(base, d.commit) && repo.changedPaths(d.commit, base) != d.paths
    case _ => false
  }

  /** Every required task has an accepted decision on a commit the repository knows. */
  ghost predicate AllAcceptable(required: seq<string>, reviews: seq<Review>, repo: Repository) {
    forall t :: t in required ==> AcceptedTask(reviews, t) && AvailableTask(reviews, repo, t)
  }

  /** The decision on `required[i]` is the first candidate that cannot be applied, for that reason. */
  ghost predicate FirstFaulty(required: seq<string>, reviews: seq<Review>, superseded: set<string>, base: string,
      repo: Repository, i: nat, reason: BlockReason) {
    && i < |required|
    && (forall j, d :: 0 <= j < i && DecisionFor(reviews, required[j], d) ==> Applicable(d, superseded, base, repo))
    && exists d :: DecisionFor(reviews, required[i], d) && CandidateFault(d, superseded, base, repo, reason)
  }

  ghost predicate ReviewsFault(required: seq<string>, reviews: seq<Review>, superseded: set<string>, base: string,
      repo: Repository, reason: BlockReason) {
    match reason
    case ReviewsMissing(ts) => ts != [] && forall t :: t in ts <==> t in required && !Decided(reviews, t)
    case NotAccepted(ts) =>
      && (forall t :: t in required ==> Decided(reviews, t))
      && ts != [] && forall t :: t in ts <==> t in required && !AcceptedTask(reviews, t)
    case CommitsUnavailable(ts) =>
      && (forall t :: t in required ==> AcceptedTask(reviews, t))
      && ts != [] && forall t :: t in ts <==> t in required && !AvailableTask(reviews, repo, t)
    case _ =>
      && AllAcceptable(required, reviews, repo)
      && exists i: nat :: FirstFaulty(required, reviews, superseded, base, repo, i, reason)
  }

  /** All there is to ask of the required tasks, apart from picking their commits. */
  ghost predicate AllApplicable(required: seq<string>, reviews: seq<Review>, superseded: set<string>, base: string,
      repo: Repository) {
    && AllAcceptable(required, reviews, repo)
    && forall t, d :: t in required && DecisionFor(reviews, t, d) ==> Applicable(d, superseded, base, repo)
  }

  ghost predicate AllPicked(required: seq<string>, reviews: seq<Review>, repo: Repository) {
    forall t, d :: t in required && DecisionFor(reviews, t, d) ==> repo.picks(d.commit)
  }

  /** The handoff names the decisions in task order and tells whether the verification passed. */
  ghost predicate Integrates(required: seq<string>, reviews: seq<Review>, repo: Repository, h: Handoff) {
    && h.status == (if repo.verified then Succeeded else Failed) && h.reason.None?
    && h.commit == Some(repo.integrationCommit) && h.evidence == repo.evidence
    && |h.reviewRefs| == |required|
    && forall i :: 0 <= i < |required| ==> exists d :: DecisionFor(reviews, required[i], d) && d.id == h.reviewRefs[i]
  }

  // ---------------------------------------------------------------- the table of decisions

  lemma {:induction false} TableMeans(reviews: seq<Review>)
    ensures ByTask(reviews).Some? <==> OnePerTask(reviews)
    ensures ByTask(reviews).Some? ==> Tabled(reviews, ByTask(reviews).value)
  {
    if reviews != [] {
      var last := |reviews| - 1;
      var before := reviews[..last];
      TableMeans(before);
      assert reviews == before + [reviews[last]];
      if ByTask(before).Some? {
        TableNext(before, reviews[last], ByTask(before).value);
      } else {
        var i, j :| 0 <= i < j < |before| && before[i].taskId == before[j].taskId;
        assert reviews[i] == before[i] && reviews[j] == before[j];
      }
    }
  }

  ghost predicate Tabled(reviews: seq<Review>, table: map<string, Review>) {
    && (forall t :: t in table ==> DecisionFor(reviews, t, table[t]))
    && forall d :: d in reviews ==> d.taskId in table && table[d.taskId] == d
  }

  lemma TableNext(before: seq<Review>, d: Review, table: map<string, Review>)
    requires OnePerTask(before) && Tabled(before, table)
    ensures OnePerTask(before + [d]) <==> d.taskId !in table
    ensures d.taskId !in table ==> Tabled(before + [d], table[d.taskId := d])
  {
    var all := before + [d];
    if d.taskId in table {
      var i :| 0 <= i < |before| && before[i] == table[d.taskId];
      assert all[i].taskId == all[|before|].taskId;
    } else {
      forall i, j | 0 <= i < j < |all| ensures all[i].taskId != all[j].taskId {
        assert all[i] in before;
      }
    }
  }

  lemma TableReads(reviews: seq<Review>, table: map<string, Review>, task: string)
    requires Tabled(reviews, table)
    ensures forall d :: DecisionFor(reviews, task, d) <==> task in table && d == table[task]
    ensures Decided(reviews, task) <==> task in table
    ensures AcceptedTask(reviews, task) <==> task in table && table[task].verdict == Accept
    ensures forall repo :: AvailableTask(reviews, repo, task) <==> task in table && repo.known(table[task].commit)
  {
    if task in table {
      assert DecisionFor(reviews, task, table[task]);
    }
  }

  // ---------------------------------------------------------------- stage by stage

  lemma CheckRepositoryMeans(boot: Bootstrap, repo: Repository)
    ensures CheckRepository(boot, repo).None? <==> RepositoryReady(boot, repo)
    ensures CheckRepository(boot, repo).Some? ==> RepositoryFault(boot, repo, CheckRepository(boot, repo).value)
  {
  }

  lemma CheckReviewsMeans(required: seq<string>, reviews: seq<Review>, table: map<string, Review>,
      superseded: set<string>, base: string, repo: Repository)
    requires Tabled(reviews, table)
    ensures var r := CheckReviews(required, table, repo);
      && (r.None? <==> AllAcceptable(required, reviews, repo))
      && (r.Some? ==> ReviewsFault(required, reviews, superseded, base, repo, r.value))
  {
    forall task
      ensures Decided(reviews, task) <==> task in table
      ensures AcceptedTask(reviews, task) <==> task in table && table[task].verdict == Accept
      ensures AvailableTask(reviews, repo, task) <==> task in table && repo.known(table[task].commit)
    {
      TableReads(reviews, table, task);
    }
    var missing := Select(required, t => t !in table);
    var rejected := Select(required, t => t in table && table[t].verdict != Accept);
    var unavailable := Select(required, t => t in table && !repo.known(table[t].commit));
    NoneSelected(required, t => t !in table);
    NoneSelected(required, t => t in table && table[t].verdict != Accept);
    NoneSelected(required, t => t in table && !repo.known(table[t].commit));
  }

  lemma NoneSelected(tasks: seq<string>, meets: string -> bool)
    ensures Select(tasks, meets) == [] <==> forall t :: t in tasks ==> !meets(t)
  {
    if Select(tasks, meets) != [] {
      assert Select(tasks, meets)[0] in Select(tasks, meets);
    }
  }

  lemma {:induction false} CheckCandidatesMeans(accepted: seq<Review>, superseded: set<string>, base: string,
      repo: Repository)
    ensures var r := CheckCandidates(accepted, superseded, base, repo);
      && (r.None? <==> forall i :: 0 <= i < |accepted| ==> Applicable(accepted[i], superseded, base, repo))
      && (r.Some? ==> exists i: nat :: FirstCandidate(accepted, superseded, base, repo, i, r.value))
  {
    if accepted != [] && Applicable(accepted[0], superseded, base, repo) {
      var rest := accepted[1..];
      CheckCandidatesMeans(rest, superseded, base, repo);
      var r := CheckCandidates(rest, superseded, base, repo);
      assert CheckCandidates(accepted, superseded, base, repo) == r;
      if r.Some? {
        var i: nat :| FirstCandidate(rest, superseded, base, repo, i, r.value);
        assert accepted[i + 1] == rest[i];
        assert FirstCandidate(accepted, superseded, base, repo, i + 1, r.value);
      } else {
        assert forall i :: 0 < i < |accepted| ==> accepted[i] == rest[i - 1];
      }
    } else if accepted != [] {
      assert FirstCandidate(accepted, superseded, base, repo, 0,
          CheckCandidates(accepted, superseded, base, repo).value);
    }
  }

  ghost predicate FirstCandidate(accepted: seq<Review>, superseded: set<string>, base: string, repo: Repository, i: nat,
      reason: BlockReason) {
    && i < |accepted| && (forall j :: 0 <= j < i ==> Applicable(accepted[j], superseded, base, repo))
    && CandidateFault(accepted[i], superseded, base, repo, reason)
  }

  // ---------------------------------------------------------------- the outcome

  ghost predicate ReadyToPick(required: seq<string>, reviews: seq<Review>, boot: Bootstrap, superseded: set<string>,
      repo: Repository) {
    && RepositoryReady(boot, repo) && OnePerTask(reviews)
    && AllApplicable(required, reviews, superseded, boot.baseCommit, repo)
  }

  ghost predicate Blocks(required: seq<string>, reviews: seq<Review>, boot: Bootstrap, superseded: set<string>,
      repo: Repository, h: Handoff) {
    && h.status == Stopped && h.commit.None? && h.reviewRefs == [] && h.evidence == [] && h.reason.Some?
    && (RepositoryFault(boot, repo, h.reason.value)
        || (RepositoryReady(boot, repo) && OnePerTask(reviews)
            && ReviewsFault(required, reviews, superseded, boot.baseCommit, repo, h.reason.value)))
  }

  /** The candidates of the required tasks, in their order, seen through the table. */
  lemma CandidatesMean(required: seq<string>, reviews: seq<Review>, table: map<string, Review>, superseded: set<string>,
      base: string, repo: Repository)
    requires Tabled(reviews, table) && AllAcceptable(required, reviews, repo)
    requires forall t :: t in required ==> t in table
    ensures var r := CheckCandidates(Pick(required, table), superseded, base, repo);
      && (r.None? <==> AllApplicable(required, reviews, superseded, base, repo))
      && (r.Some? ==> ReviewsFault(required, reviews, superseded, base, repo, r.value))
    ensures (exists d :: d in Pick(required, table) && !repo.picks(d.commit)) <==> !AllPicked(required, reviews, repo)
  {
    var accepted := Pick(required, table);
    CheckCandidatesMeans(accepted, superseded, base, repo);
    forall t ensures forall d :: DecisionFor(reviews, t, d) <==> t in table && d == table[t] {
      TableReads(reviews, table, t);
    }
    PickedAre(required, table);
    var r := CheckCandidates(accepted, superseded, base, repo);
    if r.Some? {
      var i: nat :| FirstCandidate(accepted, superseded, base, repo, i, r.value);
      assert DecisionFor(reviews, required[i], accepted[i]);
      assert FirstFaulty(required, reviews, superseded, base, repo, i, r.value);
    }
  }

  lemma PickedAre(required: seq<string>, table: map<string, Review>)
    requires forall t :: t in required ==> t in table
    ensures forall d :: d in Pick(required, table) <==> exists t :: t in required && table[t] == d
  {
    var accepted := Pick(required, table);
    forall t | t in required ensures table[t] in accepted {
      var i :| 0 <= i < |required| && required[i] == t;
      assert accepted[i] == table[t];
    }
    forall d | d in accepted ensures exists t :: t in required && table[t] == d {
      var i :| 0 <= i < |accepted| && accepted[i] == d;
      assert required[i] in required;
    }
  }

  /**
    The authority hands over exactly when repository and reviews are in order and every commit can be picked; it
    raises exactly for a task decided twice in a ready repository, and for a commit that cannot be picked when all
    else is in order; otherwise it blocks, and the reason is the first test that fails.
   */
  lemma IntegrateMeans(required: seq<string>, reviews: seq<Review>, boot: Bootstrap, superseded: set<string>,
      repo: Repository)
    ensures var r := Integrate(required, reviews, boot, superseded, repo);
      var ready := ReadyToPick(required, reviews, boot, superseded, repo);
      && (r.Ok? && !r.value.status.Stopped? <==> ready && AllPicked(required, reviews, repo))
      && (r.Ok? && !r.value.status.Stopped? ==> Integrates(required, reviews, repo, r.value))
      && (r == Err(PickFailed) <==> ready && !AllPicked(required, reviews, repo))
      && (r == Err(DuplicateDecision) <==> RepositoryReady(boot, repo) && !OnePerTask(reviews))
      && (r.Err? ==> r.error.PickFailed? || r.error.DuplicateDecision?)
      && (r.Ok? && r.value.status.Stopped? ==> Blocks(required, reviews, boot, superseded, repo, r.value))
  {
    CheckRepositoryMeans(boot, repo);
    TableMeans(reviews);
    if RepositoryReady(boot, repo) && OnePerTask(reviews) {
      ReviewsMean(required, reviews, boot, superseded, repo);
    }
  }

  lemma ReviewsMean(required: seq<string>, reviews: seq<Review>, boot: Bootstrap, superseded: set<string>,
      repo: Repository)
    requires RepositoryReady(boot, repo) && OnePerTask(reviews)
    ensures var r := Integrate(required, reviews, boot, superseded, repo);
      if AllApplicable(required, reviews, superseded, boot.baseCommit, repo) then
        if AllPicked(required, reviews, repo) then r.Ok? && Integrates(required, reviews, repo, r.value)
        else r == Err(PickFailed)
      else r.Ok? && Blocks(required, reviews, boot, superseded, repo, r.value)
  {
    CheckRepositoryMeans(boot, repo);
    TableMeans(reviews);
    var table := ByTask(reviews).value;
    CheckReviewsMeans(required, reviews, table, superseded, boot.baseCommit, repo);
    if CheckReviews(required, table, repo).None? {
      CandidatesMean(required, reviews, table, superseded, boot.baseCommit, repo);
      forall i | 0 <= i < |required|
        ensures exists d :: DecisionFor(reviews, required[i], d) && d.id == Refs(Pick(required, table))[i]
      {
        assert required[i] in required && DecisionFor(reviews, required[i], table[required[i]]);
      }
    }
  }
}

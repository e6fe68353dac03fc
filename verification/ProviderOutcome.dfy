/** What one execute or resume call does, told from what the providers report. */
module ProviderOutcome {
  import opened Collections
  import opened ProviderExecution
  import opened ProviderSafety
  import opened Scheduling

  // ---------------------------------------------------------------- one batch

  /** The status a provider result stands for: its own task result, or else the provider's verdict. */
  ghost predicate Reports(r: ProviderResult, status: Status) {
    if r.taskStatus.Some? then r.taskStatus == Some(status)
    else
      match r.status
      case PSuccess => status.Success?
      case PBlocked => status.Blocked?
      case PCancelled => status.Cancelled?
      case PFailed => status.Failed?
      case PTimeout => status.Failed?
      case PUnknown => status.Failed?
  }

  /** The result is recorded and the batch goes on. */
  ghost predicate Passes(changes: set<string>, task: string, r: ProviderResult) {
    !r.rejected && task !in changes && (r.status.PSuccess? || r.status.PCancelled?)
  }

  /** The result ends the batch: the store refuses it, its task asks for a contract change, or the provider failed. */
  ghost predicate Ends(changes: set<string>, task: string, r: ProviderResult, signal: Signal) {
    match signal
    case Go => false
    case Fail => r.rejected
    case Halt(reason) =>
      && !r.rejected
      && match reason
         case ContractChange => task in changes
         case ProviderFailure => task !in changes && !r.status.PSuccess? && !r.status.PCancelled?
         case _ => false
  }

  ghost predicate DistinctTasks(batch: Batch) {
    forall i, j :: 0 <= i < j < |batch| ==> batch[i].taskId != batch[j].taskId
  }

  /** `t` is `s` with the first `k` results of batch `n` in results and usage. */
  ghost predicate Recorded(s: State, t: State, world: World, batch: Batch, n: nat, k: nat) {
    && k <= |batch| && t == s.(results := t.results, usage := t.usage)
    && |t.usage| == |s.usage| + k && t.usage[..|s.usage|] == s.usage
    && (forall j :: 0 <= j < k ==> t.usage[|s.usage| + j] == Usage(batch[j].taskId, world.result(n, j).cost))
    && (forall j :: 0 <= j < k ==> ResultOf(t, world, batch, n, j))
    && (forall id :: id in t.results ==> id in s.results || exists j :: 0 <= j < k && batch[j].taskId == id)
    && forall id :: id in s.results ==>
         id in t.results && (t.results[id] == s.results[id] || exists j :: 0 <= j < k && batch[j].taskId == id)
  }

  ghost predicate ResultOf(t: State, world: World, batch: Batch, n: nat, j: int) {
    && 0 <= j < |batch| && batch[j].taskId in t.results
    && Reports(world.result(n, j), t.results[batch[j].taskId])
  }

  /** The first `j` results pass, and the next one ends the batch, unless there is none. */
  ghost predicate BatchEnds(s: State, t: State, world: World, batch: Batch, n: nat, j: nat, signal: Signal) {
    && j <= |batch| && (forall i :: 0 <= i < j ==> Passes(s.changes, batch[i].taskId, world.result(n, i)))
    && (signal == Go <==> j == |batch|)
    && (j < |batch| ==> Ends(s.changes, batch[j].taskId, world.result(n, j), signal))
    && Recorded(s, t, world, batch, n, if signal.Halt? then j + 1 else j)
  }

  lemma RecordedNext(s: State, t: State, world: World, batch: Batch, n: nat, k: nat)
    requires Recorded(s, t, world, batch, n, k) && k < |batch| && DistinctTasks(batch)
    ensures Recorded(s, Noted(t, batch[k].taskId, world.result(n, k)), world, batch, n, k + 1)
  {
    var u := Noted(t, batch[k].taskId, world.result(n, k));
    forall j | 0 <= j < k + 1 ensures ResultOf(u, world, batch, n, j) {
      assert j < k ==> ResultOf(t, world, batch, n, j);
    }
    assert batch[k].taskId in u.results;
    forall id | id in s.results
      ensures id in u.results && (u.results[id] == s.results[id] || exists j :: 0 <= j < k + 1 && batch[j].taskId == id)
    {
      assert id in t.results;
      if id != batch[k].taskId {
        assert u.results[id] == t.results[id];
      }
    }
  }

  lemma {:induction false} AbsorbEnds(s: State, t: State, world: World, batch: Batch, n: nat, k: nat) returns (j: nat)
    requires Recorded(s, t, world, batch, n, k) && DistinctTasks(batch)
    requires forall i :: 0 <= i < k ==> Passes(s.changes, batch[i].taskId, world.result(n, i))
    ensures var (u, signal) := Absorb(t, world, batch, n, k); BatchEnds(s, u, world, batch, n, j, signal)
    decreases |batch| - k
  {
    j := k;
    if k < |batch| {
      RecordedNext(s, t, world, batch, n, k);
      if Passes(s.changes, batch[k].taskId, world.result(n, k)) {
        j := AbsorbEnds(s, Noted(t, batch[k].taskId, world.result(n, k)), world, batch, n, k + 1);
      }
    }
  }

  lemma RecordedNone(s: State, world: World, batch: Batch, n: nat)
    ensures Recorded(s, s, world, batch, n, 0)
  {
  }

  // ---------------------------------------------------------------- one call

  /** The batch is on its way: it is the next in the trace, and the change requests of its tasks come in. */
  ghost predicate Leaves(s: State, sent: State, world: World, policy: Policy, batch: Batch) {
    && sent == s.(trace := sent.trace, changes := s.changes + world.changeRequests(|s.trace|))
    && |sent.trace| == |s.trace| + 1 && sent.trace[..|s.trace|] == s.trace
    && var d := sent.trace[|s.trace|];
       && d.batch == batch && d.pending == s.interrupt && d.spent == Spent(s.usage)
       && d.maximum == policy.maximumCost && d.results == s.results
  }

  /** The cursor holds the reason, and no policy. */
  ghost predicate StopsFor(s: State, t: State, reply: Reply, reason: Interrupt) {
    reply == Interrupted(reason) && t == s.(interrupt := Some(reason), policy := None)
  }

  /** What follows the results of the one batch of a call. */
  ghost predicate Concludes(s: State, t: State, signal: Signal, policy: Policy, more: bool, reply: Reply) {
    match signal
    case Fail => reply == Raised && t == s
    case Halt(reason) => StopsFor(s, t, reply, reason)
    case Go =>
      if policy.maximumCost.Some? && Spent(s.usage) > policy.maximumCost.value then StopsFor(s, t, reply, BudgetExcess)
      else if more then StopsFor(s, t, reply, IntegrationApproval)
      else reply == Completed && t == s.(interrupt := None, policy := None)
  }

  ghost predicate BatchCall(s: State, t: State, world: World, policy: Policy, batch: Batch, more: bool, reply: Reply) {
    exists sent ::
      Leaves(s, sent, world, policy, batch) && AfterSending(s, sent, t, world, policy, batch, more, reply)
  }

  ghost predicate AfterSending(s: State, sent: State, t: State, world: World, policy: Policy, batch: Batch, more: bool,
      reply: Reply) {
    if world.raises(|s.trace|) then reply == Raised && t == sent
    else
      exists j: nat, signal, u ::
        BatchEnds(sent, u, world, batch, |s.trace|, j, signal) && Concludes(u, t, signal, policy, more, reply)
  }

  /**
    The effect of a call with nothing pending: without a batch it completes, at the ceiling it stops, and otherwise
    exactly the first batch goes out.
   */
  ghost predicate CallEnds(s: State, t: State, world: World, plan: Plan, policy: Policy, reply: Reply) {
    var batches := Compile(plan, policy, s.results);
    if batches == [] then reply == Completed && t == s.(interrupt := None, policy := None)
    else if policy.maximumCost.Some? && Spent(s.usage) >= policy.maximumCost.value then
      StopsFor(s, t, reply, BudgetExcess)
    else BatchCall(s, t, world, policy, batches[0], |batches| > 1, reply)
  }

  /** The answer to a call while an interrupt is pending, and the effect of one while none is. */
  ghost predicate Answers(s: State, t: State, world: World, plan: Plan, policy: Policy, reply: Reply) {
    if s.interrupt.Some? then reply == Waiting(s.interrupt.value) && t == s
    else CallEnds(s, t, world, plan, policy, reply)
  }

  lemma BatchTasksDistinct(plan: Plan, policy: Policy, results: Results, i: nat)
    requires i < |Compile(plan, policy, results)|
    ensures DistinctTasks(Compile(plan, policy, results)[i])
  {
    var requests := RequestsFor(ReadyTasks(plan, results), policy);
    ReadyRequests(plan, policy, results);
    SplitIsFirstFit(requests, policy.maximumPerProvider);
    var batch := Compile(plan, policy, results)[i];
    forall a, b | 0 <= a < b < |batch| ensures batch[a].taskId != batch[b].taskId {
      assert Precedes(requests, batch[a], batch[b]);
    }
  }

  /** One batch of a call, from its dispatch to the reply. */
  lemma RunBatchEnds(s: State, world: World, policy: Policy, batches: seq<Batch>)
    requires batches != [] && Distinct(batches) && DistinctTasks(batches[0])
    requires !Reached(Spent(s.usage), policy)
    ensures var (t, reply) := RunBatches(s, world, policy, batches, 0);
      BatchCall(s, t, world, policy, batches[0], |batches| > 1, reply)
  {
    var (t, reply) := RunBatches(s, world, policy, batches, 0);
    var batch, n := batches[0], |s.trace|;
    var sent := Sent(s, world, policy, batch);
    assert Leaves(s, sent, world, policy, batch);
    if !world.raises(n) {
      RecordedNone(sent, world, batch, n);
      var j := AbsorbEnds(sent, sent, world, batch, n, 0);
      var (u, signal) := Absorb(sent, world, batch, n, 0);
      BatchConcludes(s, world, policy, batches);
      assert BatchEnds(sent, u, world, batch, n, j, signal);
    }
    assert AfterSending(s, sent, t, world, policy, batch, |batches| > 1, reply);
  }

  lemma BatchConcludes(s: State, world: World, policy: Policy, batches: seq<Batch>)
    requires batches != [] && Distinct(batches) && !Reached(Spent(s.usage), policy) && !world.raises(|s.trace|)
    ensures var (t, reply) := RunBatches(s, world, policy, batches, 0);
      var (u, signal) := Absorb(Sent(s, world, policy, batches[0]), world, batches[0], |s.trace|, 0);
      Concludes(u, t, signal, policy, |batches| > 1, reply)
  {
    var (u, signal) := Absorb(Sent(s, world, policy, batches[0]), world, batches[0], |s.trace|, 0);
    assert |batches| > 1 <==> batches[0] != batches[|batches| - 1];
    if signal == Go && |batches| == 1 {
      assert RunBatches(u, world, policy, batches, 1) == (u.(interrupt := None, policy := None), Completed);
    }
  }

  /** Every call does what the reports of its one batch call for. */
  lemma CallOutcome(s: State, world: World, plan: Plan, policy: Policy)
    ensures var (t, reply) := ExecuteWithPolicy(s, world, plan, policy); Answers(s, t, world, plan, policy, reply)
  {
    var batches := Compile(plan, policy, s.results);
    if s.interrupt.None? && batches != [] && !Reached(Spent(s.usage), policy) {
      CompiledBatches(plan, policy, s.results);
      BatchTasksDistinct(plan, policy, s.results, 0);
      RunBatchEnds(s, world, policy, batches);
    }
  }

  // ---------------------------------------------------------------- clearing before a retry

  /** The results of the first `k` targets are gone and the others are as before. */
  ghost predicate Cleared(before: Results, after: Results, targets: seq<string>, k: nat) {
    && k <= |targets|
    && forall id :: id in before.Keys + after.Keys ==>
         if id in targets[..k] then id !in after else id in before && id in after && after[id] == before[id]
  }

  /** Clearing goes up to the first target outside the plan. */
  ghost predicate ClearsUpTo(before: Results, after: Results, ids: set<string>, targets: seq<string>, k: nat) {
    Cleared(before, after, targets, k) && ToSet(targets[..k]) <= ids && (k < |targets| ==> targets[k] !in ids)
  }

  lemma {:induction false} ClearAllMeans(results: Results, ids: set<string>, targets: seq<string>) returns (k: nat)
    ensures var (after, ok) := ClearAll(results, ids, targets);
      ClearsUpTo(results, after, ids, targets, k) && (ok <==> k == |targets|)
    decreases |targets|
  {
    k := 0;
    if targets != [] && targets[0] in ids {
      var rest := targets[1..];
      k := ClearAllMeans(results - {targets[0]}, ids, rest);
      ClearedFirst(results, ClearAll(results, ids, targets).0, ids, targets, k);
      k := k + 1;
    }
  }

  lemma ClearedFirst(before: Results, after: Results, ids: set<string>, targets: seq<string>, k: nat)
    requires targets != [] && targets[0] in ids
    requires ClearsUpTo(before - {targets[0]}, after, ids, targets[1..], k)
    ensures ClearsUpTo(before, after, ids, targets, k + 1)
  {
    assert targets[..k + 1] == [targets[0]] + targets[1..][..k];
  }

  /** The stored policy runs on the remaining results, with the interrupt gone. */
  ghost predicate ResumesWith(s: State, t: State, world: World, plan: Plan, cleared: Results, reply: Reply)
    requires s.policy.Some?
  {
    CallEnds(s.(results := cleared, interrupt := None), t, world, plan, s.policy.value, reply)
  }

  ghost predicate Retries(s: State, t: State, world: World, plan: Plan, targets: seq<string>, reply: Reply,
      cleared: Results, k: nat)
    requires s.policy.Some?
  {
    && ClearsUpTo(s.results, cleared, TaskIds(plan.tasks), targets, k)
    && if k == |targets| then ResumesWith(s, t, world, plan, cleared, reply)
       else reply == Raised && t == s.(results := cleared)
  }

  /** A retry clears every result or those of its targets first; a foreign target raises half-way. */
  ghost predicate Resumes(s: State, t: State, world: World, plan: Plan, decision: Decision, reply: Reply)
    requires s.policy.Some?
  {
    match decision
    case Unknown => reply == Raised && t == s
    case Continue => ResumesWith(s, t, world, plan, s.results, reply)
    case Retry(targets) =>
      if targets == [] then ResumesWith(s, t, world, plan, map[], reply)
      else exists cleared, k :: Retries(s, t, world, plan, targets, reply, cleared, k)
  }

  lemma ResumeOutcome(s: State, world: World, plan: Plan, decision: Decision)
    requires s.policy.Some?
    ensures var (t, reply) := Resume(s, world, plan, decision); Resumes(s, t, world, plan, decision, reply)
  {
    var (t, reply) := Resume(s, world, plan, decision);
    match decision
    case Unknown =>
    case Continue =>
      CallOutcome(s.(results := s.results, interrupt := None), world, plan, s.policy.value);
    case Retry(targets) =>
      if targets == [] {
        CallOutcome(s.(results := map[], interrupt := None), world, plan, s.policy.value);
      } else {
        var k := ClearAllMeans(s.results, TaskIds(plan.tasks), targets);
        var cleared := ClearAll(s.results, TaskIds(plan.tasks), targets).0;
        CallOutcome(s.(results := cleared, interrupt := None), world, plan, s.policy.value);
        assert Retries(s, t, world, plan, targets, reply, cleared, k);
      }
  }
}

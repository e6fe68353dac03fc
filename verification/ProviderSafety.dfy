/** Safety of provider execution over every sequence of execute, resume and cancel calls. */
module ProviderSafety {
  import opened Collections
  import opened Scheduling
  import opened ProviderExecution

  ghost predicate NonNegative(world: World) {
    forall n, j :: world.result(n, j).cost >= 0.0
  }

  /** What the providers charge for batch `n`, from position `j`, whether or not it gets recorded. */
  ghost function Billed(world: World, batch: Batch, n: nat, j: nat): real
    requires j <= |batch|
    decreases |batch| - j
  {
    if j == |batch| then 0.0 else world.result(n, j).cost + Billed(world, batch, n, j + 1)
  }

  /** The state after one accepted result. */
  function Noted(s: State, taskId: string, result: ProviderResult): State {
    s.(results := s.results[taskId := StatusOf(result)], usage := s.usage + [Usage(taskId, result.cost)])
  }

  lemma AbsorbStep(s: State, world: World, batch: Batch, n: nat, j: nat)
    requires j < |batch|
    ensures var result := world.result(n, j);
            var s' := Noted(s, batch[j].taskId, result);
            || (result.rejected && Absorb(s, world, batch, n, j).0 == s)
            || Absorb(s, world, batch, n, j).0 == s'
            || Absorb(s, world, batch, n, j) == Absorb(s', world, batch, n, j + 1)
  {
  }

  /** Absorbing results leaves cursor, events and trace alone. */
  lemma {:induction false} AbsorbFrame(s: State, world: World, batch: Batch, n: nat, j: nat)
    requires j <= |batch|
    ensures var t := Absorb(s, world, batch, n, j).0;
            t.trace == s.trace && t.interrupt == s.interrupt && t.policy == s.policy && t.changes == s.changes
    decreases |batch| - j
  {
    if j < |batch| {
      AbsorbStep(s, world, batch, n, j);
      AbsorbFrame(Noted(s, batch[j].taskId, world.result(n, j)), world, batch, n, j + 1);
    }
  }

  /** Absorbing results records at most what the batch costs. */
  lemma {:induction false} AbsorbSpend(s: State, world: World, batch: Batch, n: nat, j: nat)
    requires j <= |batch| && NonNegative(world)
    ensures Spent(s.usage) <= Spent(Absorb(s, world, batch, n, j).0.usage) <= Spent(s.usage) + Billed(world, batch, n,
      j)
    decreases |batch| - j
  {
    BilledNonNegative(world, batch, n, j);
    if j < |batch| {
      var result := world.result(n, j);
      SpentAppend(s.usage, Usage(batch[j].taskId, result.cost));
      BilledNonNegative(world, batch, n, j + 1);
      AbsorbStep(s, world, batch, n, j);
      AbsorbSpend(Noted(s, batch[j].taskId, result), world, batch, n, j + 1);
    }
  }

  lemma {:induction false} BilledNonNegative(world: World, batch: Batch, n: nat, j: nat)
    requires j <= |batch| && NonNegative(world)
    ensures Billed(world, batch, n, j) >= 0.0
    decreases |batch| - j
  {
    if j < |batch| {
      BilledNonNegative(world, batch, n, j + 1);
    }
  }

  // ---------------------------------------------------------------- the invariant

  /** A batch left with nothing pending, below its ceiling, and with ready tasks only. */
  ghost predicate GoodDispatch(plan: Plan, d: Dispatch) {
    && d.pending == None
    && (d.maximum.Some? ==> d.spent < d.maximum.value)
    && d.batch != []
    && forall r :: r in d.batch ==> ReadyRequest(plan, d.results, r)
  }

  /** Recorded spend when the trace stood at `k` entries. */
  ghost function SpendAt(s: State, k: nat): real
    requires k <= |s.trace|
  {
    if k == |s.trace| then Spent(s.usage) else s.trace[k].spent
  }

  ghost predicate StepBounded(s: State, world: World, k: nat)
    requires k < |s.trace|
  {
    SpendAt(s, k) <= SpendAt(s, k + 1) <= SpendAt(s, k) + Billed(world, s.trace[k].batch, k, 0)
  }

  ghost predicate Safe(s: State, world: World, plan: Plan) {
    && (forall k :: 0 <= k < |s.trace| ==> GoodDispatch(plan, s.trace[k]))
    && (forall k :: 0 <= k < |s.trace| ==> StepBounded(s, world, k))
    && SpendAt(s, 0) == 0.0
  }

  /** Two states with the same trace and usage are equally safe. */
  lemma SafeDependsOnTrace(s: State, t: State, world: World, plan: Plan)
    requires Safe(s, world, plan) && t.trace == s.trace && t.usage == s.usage
    ensures Safe(t, world, plan)
  {
    forall k | 0 <= k < |t.trace| ensures StepBounded(t, world, k) {
      assert StepBounded(s, world, k);
    }
  }

  /** One more dispatch followed by absorbing its results. */
  lemma DispatchKeepsSafe(s: State, t: State, world: World, plan: Plan, policy: Policy, batch: Batch)
    requires Safe(s, world, plan) && NonNegative(world)
    requires s.interrupt.None? && !Reached(Spent(s.usage), policy)
    requires batch != [] && forall r :: r in batch ==> ReadyRequest(plan, s.results, r)
    requires t.trace == Sent(s, world, policy, batch).trace
    requires Spent(s.usage) <= Spent(t.usage) <= Spent(s.usage) + Billed(world, batch, |s.trace|, 0)
    ensures Safe(t, world, plan)
  {
    var n := |s.trace|;
    forall k | 0 <= k < |t.trace| ensures GoodDispatch(plan, t.trace[k]) {
      if k < n {
        assert GoodDispatch(plan, s.trace[k]);
      }
    }
    forall k | 0 <= k < |t.trace| ensures StepBounded(t, world, k) {
      if k < n {
        assert StepBounded(s, world, k);
        assert SpendAt(t, k) == SpendAt(s, k) && SpendAt(t, k + 1) == SpendAt(s, k + 1);
      }
    }
    assert SpendAt(t, 0) == SpendAt(s, 0);
  }

  /** After a stop or a completion the cursor holds no policy. */
  ghost predicate Settled(s: State, reply: Reply) {
    && (reply.Interrupted? ==> s.interrupt == Some(reply.reason) && s.policy.None?)
    && (reply.Completed? ==> s.interrupt.None? && s.policy.None?)
  }

  lemma {:induction false} RunBatchesSafe(s: State, world: World, plan: Plan, policy: Policy, batches: seq<Batch>,
      i: nat)
    requires Safe(s, world, plan) && NonNegative(world) && s.interrupt.None?
    requires Distinct(batches) && i <= |batches|
    requires forall k :: 0 <= k < |batches| ==> batches[k] != []
    requires i < |batches| ==> forall r :: r in batches[i] ==> ReadyRequest(plan, s.results, r)
    ensures var (t, reply) := RunBatches(s, world, policy, batches, i);
            && Safe(t, world, plan)
            && |s.trace| <= |t.trace| <= |s.trace| + (if i < |batches| then 1 else 0)
            && Settled(t, reply) && !reply.Waiting?
            && (reply.Raised? ==> t.interrupt == s.interrupt && t.policy == s.policy)
    decreases |batches| - i
  {
    if i == |batches| || Reached(Spent(s.usage), policy) {
      SafeDependsOnTrace(s, RunBatches(s, world, policy, batches, i).0, world, plan);
    } else {
      var sent := Sent(s, world, policy, batches[i]);
      var n := |s.trace|;
      BilledNonNegative(world, batches[i], n, 0);
      if world.raises(n) {
        DispatchKeepsSafe(s, sent, world, plan, policy, batches[i]);
      } else {
        AbsorbFrame(sent, world, batches[i], n, 0);
        AbsorbSpend(sent, world, batches[i], n, 0);
        var t := Absorb(sent, world, batches[i], n, 0).0;
        DispatchKeepsSafe(s, t, world, plan, policy, batches[i]);
        FinishBatch(s, t, world, plan, policy, batches, i);
      }
    }
  }

  /** What follows the results of batch `i`: a stop, or, for the last batch, the end of the loop. */
  lemma FinishBatch(s: State, t: State, world: World, plan: Plan, policy: Policy, batches: seq<Batch>, i: nat)
    requires i < |batches| && Distinct(batches) && !Reached(Spent(s.usage), policy) && !world.raises(|s.trace|)
    requires t == Absorb(Sent(s, world, policy, batches[i]), world, batches[i], |s.trace|, 0).0
    requires Safe(t, world, plan) && t.interrupt == s.interrupt && s.interrupt.None? && t.policy == s.policy
    requires |t.trace| == |s.trace| + 1
    ensures var (u, reply) := RunBatches(s, world, policy, batches, i);
            && Safe(u, world, plan) && |u.trace| == |s.trace| + 1
            && Settled(u, reply) && !reply.Waiting?
            && (reply.Raised? ==> u.interrupt == s.interrupt && u.policy == s.policy)
  {
    var signal := Absorb(Sent(s, world, policy, batches[i]), world, batches[i], |s.trace|, 0).1;
    var last := |batches| - 1;
    if signal == Go && !Over(Spent(t.usage), policy) && batches[i] == batches[last] {
      assert i == last;
      assert RunBatches(s, world, policy, batches, i) == RunBatches(t, world, policy, batches, i + 1);
    }
    SafeDependsOnTrace(t, RunBatches(s, world, policy, batches, i).0, world, plan);
  }

  // ---------------------------------------------------------------- every operation

  lemma ExecuteWithPolicySafe(s: State, world: World, plan: Plan, policy: Policy)
    requires Safe(s, world, plan) && NonNegative(world)
    ensures var (t, reply) := ExecuteWithPolicy(s, world, plan, policy);
            && Safe(t, world, plan)
            && |s.trace| <= |t.trace| <= |s.trace| + 1
            && Settled(t, reply)
            && (reply.Waiting? ==> t == s && s.interrupt == Some(reply.reason))
            && (reply.Raised? ==> t.interrupt.None? && t.policy == s.policy)
  {
    if s.interrupt.None? {
      CompiledBatches(plan, policy, s.results);
      RunBatchesSafe(s, world, plan, policy, Compile(plan, policy, s.results), 0);
    }
  }

  /** A resume either raises before touching the cursor or runs with the stored policy and no interrupt. */
  lemma ResumeCases(s: State, world: World, plan: Plan, decision: Decision) returns (cleared: Results, raised: bool)
    ensures raised ==> Resume(s, world, plan, decision) == (s.(results := cleared), Raised)
    ensures !raised ==> s.policy.Some?
    ensures !raised ==>
      Resume(s, world, plan, decision) == ExecuteWithPolicy(s.(results := cleared, interrupt := None), world, plan,
        s.policy.value)
  {
    if decision.Unknown? || s.policy.None? {
      cleared, raised := s.results, true;
      assert s.(results := s.results) == s;
    } else {
      var outcome :=
        if decision.Continue? then (s.results, true)
        else if decision.taskIds == [] then (map[], true)
        else ClearAll(s.results, TaskIds(plan.tasks), decision.taskIds);
      cleared, raised := outcome.0, !outcome.1;
    }
  }

  lemma StepSafe(s: State, world: World, plan: Plan, op: Operation)
    requires Safe(s, world, plan) && NonNegative(world)
    ensures Safe(Apply(s, world, plan, op).0, world, plan)
    ensures |s.trace| <= |Apply(s, world, plan, op).0.trace| <= |s.trace| + 1
  {
    match op
    case DoExecute(policy) =>
      var s' := s.(policy := Some(policy));
      SafeDependsOnTrace(s, s', world, plan);
      ExecuteWithPolicySafe(s', world, plan, policy);
    case DoResume(decision) =>
      var cleared, raised := ResumeCases(s, world, plan, decision);
      SafeDependsOnTrace(s, s.(results := cleared), world, plan);
      if !raised {
        SafeDependsOnTrace(s, s.(results := cleared, interrupt := None), world, plan);
        ExecuteWithPolicySafe(s.(results := cleared, interrupt := None), world, plan, s.policy.value);
      }
    case DoCancel(task) =>
      SafeDependsOnTrace(s, Apply(s, world, plan, op).0, world, plan);
  }

  /**
    Over every sequence of calls: no batch is dispatched while an interrupt is pending, every
    dispatch starts below its ceiling and holds ready tasks only, and the recorded spend moves
    by at most the cost of the dispatched batch.
   */
  lemma {:induction false} RunSafe(s: State, world: World, plan: Plan, ops: seq<Operation>)
    requires Safe(s, world, plan) && NonNegative(world)
    ensures Safe(Run(s, world, plan, ops), world, plan)
    ensures |Run(s, world, plan, ops).trace| <= |s.trace| + |ops|
    decreases |ops|
  {
    if ops != [] {
      StepSafe(s, world, plan, ops[0]);
      RunSafe(Apply(s, world, plan, ops[0]).0, world, plan, ops[1..]);
    }
  }

  ghost predicate CeilingThroughout(s: State, maximum: real) {
    forall k :: 0 <= k < |s.trace| ==> s.trace[k].maximum == Some(maximum)
  }

  /** With one ceiling throughout, the recorded spend stays below it plus the cost of the last batch. */
  lemma OvershootBound(world: World, plan: Plan, ops: seq<Operation>, maximum: real)
    requires NonNegative(world) && CeilingThroughout(Run(FRESH, world, plan, ops), maximum)
    ensures var s := Run(FRESH, world, plan, ops);
            if s.trace == [] then Spent(s.usage) == 0.0
            else Spent(s.usage) < maximum + Billed(world, s.trace[|s.trace| - 1].batch, |s.trace| - 1, 0)
  {
    assert Safe(FRESH, world, plan);
    RunSafe(FRESH, world, plan, ops);
    var s := Run(FRESH, world, plan, ops);
    if s.trace != [] {
      var k := |s.trace| - 1;
      assert GoodDispatch(plan, s.trace[k]) && StepBounded(s, world, k);
    }
  }

  // ---------------------------------------------------------------- resuming after a stop

  /** A stop and a completion both drop the stored policy, so a direct resume raises and changes nothing. */
  lemma ResumeAfterStopRaises(s: State, world: World, plan: Plan, op: Operation, decision: Decision)
    requires Safe(s, world, plan) && NonNegative(world) && !op.DoCancel?
    requires var reply := Apply(s, world, plan, op).1; reply.Interrupted? || reply.Completed?
    ensures var t := Apply(s, world, plan, op).0; Resume(t, world, plan, decision) == (t, Raised)
  {
    StepReply(s, world, plan, op);
  }

  lemma StepReply(s: State, world: World, plan: Plan, op: Operation)
    requires Safe(s, world, plan) && NonNegative(world) && !op.DoCancel?
    ensures Settled(Apply(s, world, plan, op).0, Apply(s, world, plan, op).1)
  {
    match op
    case DoExecute(policy) =>
      SafeDependsOnTrace(s, s.(policy := Some(policy)), world, plan);
      ExecuteWithPolicySafe(s.(policy := Some(policy)), world, plan, policy);
    case DoResume(decision) =>
      var cleared, raised := ResumeCases(s, world, plan, decision);
      SafeDependsOnTrace(s, s.(results := cleared), world, plan);
      if !raised {
        SafeDependsOnTrace(s, s.(results := cleared, interrupt := None), world, plan);
        ExecuteWithPolicySafe(s.(results := cleared, interrupt := None), world, plan, s.policy.value);
      }
  }

  /** Executing again while stopped stores the policy, dispatches nothing, and makes the run resumable. */
  lemma ExecuteThenResume(s: State, world: World, plan: Plan, policy: Policy)
    requires s.interrupt.Some?
    ensures Execute(s, world, plan, policy) == (s.(policy := Some(policy)), Waiting(s.interrupt.value))
    ensures Resume(s.(policy := Some(policy)), world, plan, Continue) ==
            ExecuteWithPolicy(s.(policy := Some(policy), interrupt := None), world, plan, policy)
  {
    assert s.(policy := Some(policy)).(results := s.results) == s.(policy := Some(policy));
  }

  /** A resume with a valid decision gets past the policy check exactly when the cursor holds a policy. */
  ghost predicate Resumable(s: State) {
    s.policy.Some?
  }

  lemma ExecuteLeavesPolicy(s: State, world: World, plan: Plan, policy: Policy)
    requires Safe(s, world, plan) && NonNegative(world) && s.policy.Some?
    ensures var (t, reply) := ExecuteWithPolicy(s, world, plan, policy);
            && (Resumable(t) <==> reply.Waiting? || reply.Raised?)
            && (s.interrupt.None? ==> !reply.Waiting?)
  {
    ExecuteWithPolicySafe(s, world, plan, policy);
    var reply := ExecuteWithPolicy(s, world, plan, policy).1;
    assert reply.Interrupted? || reply.Waiting? || reply.Completed? || reply.Raised?;
  }

  /** Along a run, a policy is on the cursor only after an execute or resume that neither stopped nor completed. */
  lemma PolicyOnlyAfterUnfinishedCall(s: State, world: World, plan: Plan, op: Operation)
    requires Safe(s, world, plan) && NonNegative(world)
    ensures var (t, reply) := Apply(s, world, plan, op);
            Resumable(t) <==> if op.DoExecute? then reply.Waiting? || reply.Raised?
                              else Resumable(s) && (op.DoCancel? || reply.Raised?)
  {
    match op
    case DoExecute(policy) =>
      SafeDependsOnTrace(s, s.(policy := Some(policy)), world, plan);
      ExecuteLeavesPolicy(s.(policy := Some(policy)), world, plan, policy);
    case DoResume(decision) =>
      var cleared, raised := ResumeCases(s, world, plan, decision);
      if !raised {
        var s' := s.(results := cleared, interrupt := None);
        SafeDependsOnTrace(s, s', world, plan);
        ExecuteLeavesPolicy(s', world, plan, s.policy.value);
      }
    case DoCancel(task) =>
  }
}

/** `ProviderExecutionService` on its cursor file, usage file and run store. */
module ProviderService {
  import opened Collections
  import opened ProviderExecution
  import opened ProviderOutcome
  import opened ProviderSafety
  import opened Scheduling

  /** The document behind a run's cursor; a missing file reads as no interrupt and no policy. */
  datatype Cursor = Cursor(interrupt: Option<Interrupt>, policy: Option<Policy>)

  /** The results of one run; the store accepts ids of its plan only. */
  class FileRunStore {
    const ids: set<string>
    var results: Results

    constructor (ids: set<string>)
      ensures this.ids == ids && results == map[]
    {
      this.ids, results := ids, map[];
    }

    method RecordResult(id: string, status: Status) returns (ok: bool)
      modifies this
      ensures ok <==> id in ids
      ensures results == if ok then old(results)[id := status] else old(results)
    {
      if id !in ids {
        return false;
      }
      results := results[id := status];
      ok := true;
    }

    method ClearResult(id: string) returns (ok: bool)
      modifies this
      ensures ok <==> id in ids
      ensures results == if ok then old(results) - {id} else old(results)
    {
      if id !in ids {
        return false;
      }
      results := results - {id};
      ok := true;
    }
  }

  /** One accepted result, as one step of `Absorb`. */
  lemma AbsorbOne(s: State, world: World, batch: Batch, n: nat, j: nat)
    requires j < |batch|
    ensures var result := world.result(n, j);
      var noted := Noted(s, batch[j].taskId, result);
      Absorb(s, world, batch, n, j) ==
        if result.rejected then (s, Fail)
        else if batch[j].taskId in s.changes then (noted, Halt(ContractChange))
        else if !result.status.PSuccess? && !result.status.PCancelled? then (noted, Halt(ProviderFailure))
        else Absorb(noted, world, batch, n, j + 1)
  {
  }

  lemma BatchInPlan(plan: Plan, policy: Policy, results: Results, i: nat, j: nat)
    requires i < |Compile(plan, policy, results)| && j < |Compile(plan, policy, results)[i]|
    ensures Compile(plan, policy, results)[i][j].taskId in TaskIds(plan.tasks)
  {
    CompiledBatches(plan, policy, results);
    var r := Compile(plan, policy, results)[i][j];
    assert ReadyRequest(plan, results, r);
    var t: Task :| t.id == r.taskId && Ready(plan, results, t);
  }

  class ProviderExecutionService {
    const plan: Plan
    const store: FileRunStore
    var cursor: Option<Cursor>
    var usage: seq<Usage>
    var changes: set<string>
    ghost var trace: seq<Dispatch>
    var dispatches: nat

    ghost predicate Valid()
      reads this
    {
      dispatches == |trace| && store.ids == TaskIds(plan.tasks)
    }

    function LoadCursor(): Cursor
      reads this
    {
      if cursor.None? then Cursor(None, None) else cursor.value
    }

    ghost function Snapshot(): State
      reads this, store
    {
      State(LoadCursor().interrupt, LoadCursor().policy, usage, changes, store.results, trace)
    }

    constructor (plan: Plan)
      ensures Valid() && this.plan == plan && Snapshot() == FRESH && fresh(store)
    {
      this.plan := plan;
      store := new FileRunStore(TaskIds(plan.tasks));
      cursor, usage, changes := None, [], {};
      trace, dispatches := [], 0;
    }

    /** `_interrupt` writes a cursor without a policy. */
    method SaveInterrupt(reason: Interrupt)
      modifies this`cursor
      ensures Snapshot() == Stop(old(Snapshot()), reason)
    {
      cursor := Some(Cursor(Some(reason), None));
    }

    /** The loop over the results of a batch; the running total follows the recorded usage. */
    method AbsorbResults(world: World, batch: Batch, n: nat, spent0: real) returns (signal: Signal, spent: real)
      requires Valid() && spent0 == Spent(usage)
      requires forall j :: 0 <= j < |batch| ==> batch[j].taskId in store.ids
      modifies this`usage, store
      ensures (Snapshot(), signal) == Absorb(old(Snapshot()), world, batch, n, 0)
      ensures signal == Go ==> spent == Spent(usage)
    {
      spent := spent0;
      for j := 0 to |batch|
        invariant spent == Spent(usage)
        invariant Absorb(Snapshot(), world, batch, n, j) == Absorb(old(Snapshot()), world, batch, n, 0)
      {
        var result, id := world.result(n, j), batch[j].taskId;
        ghost var before := Snapshot();
        AbsorbOne(before, world, batch, n, j);
        spent := spent + result.cost;
        if result.rejected {
          return Fail, spent;
        }
        var ok := store.RecordResult(id, StatusOf(result));
        SpentAppend(usage, Usage(id, result.cost));
        usage := usage + [Usage(id, result.cost)];
        assert Snapshot() == Noted(before, id, result);
        if id in changes {
          return Halt(ContractChange), spent;
        }
        if !result.status.PSuccess? && !result.status.PCancelled? {
          return Halt(ProviderFailure), spent;
        }
      }
      signal := Go;
    }

    /** `_execute_with_policy` */
    method RunWithPolicy(world: World, chosen: Policy) returns (reply: Reply)
      requires Valid()
      modifies this, store
      ensures Valid() && (Snapshot(), reply) == ExecuteWithPolicy(old(Snapshot()), world, plan, chosen)
    {
      var pending := LoadCursor().interrupt;
      if pending.Some? {
        return Waiting(pending.value);
      }
      var batches := CompileBatches(plan, chosen, store.results);
      var spent := RecordedSpend();
      for i := 0 to |batches|
        invariant Valid() && spent == Spent(usage)
        invariant RunBatches(Snapshot(), world, chosen, batches, i) == ExecuteWithPolicy(old(Snapshot()), world, plan,
          chosen)
      {
        if Reached(spent, chosen) {
          SaveInterrupt(BudgetExcess);
          return Interrupted(BudgetExcess);
        }
        forall j | 0 <= j < |batches[i]| ensures batches[i][j].taskId in store.ids {
          BatchInPlan(plan, chosen, old(store.results), i, j);
        }
        var signal;
        signal, spent := RunBatch(world, chosen, batches[i], spent);
        match signal {
          case Fail => return Raised;
          case Halt(reason) =>
            SaveInterrupt(reason);
            return Interrupted(reason);
          case Go =>
        }
        if Over(spent, chosen) {
          SaveInterrupt(BudgetExcess);
          return Interrupted(BudgetExcess);
        }
        if batches[i] != batches[|batches| - 1] {
          SaveInterrupt(IntegrationApproval);
          return Interrupted(IntegrationApproval);
        }
      }
      cursor := Some(Cursor(None, None));
      reply := Completed;
    }

    /** `_dispatch` and the loop over what it returns; a provider that raises ends the call. */
    method RunBatch(world: World, chosen: Policy, batch: Batch, spent0: real) returns (signal: Signal, spent: real)
      requires Valid() && spent0 == Spent(usage)
      requires forall j :: 0 <= j < |batch| ==> batch[j].taskId in store.ids
      modifies this, store
      ensures Valid()
      ensures var s := old(Snapshot());
        var sent := Sent(s, world, chosen, batch);
        (Snapshot(), signal) ==
          (if world.raises(|s.trace|) then (sent, Fail) else Absorb(sent, world, batch, |s.trace|, 0))
      ensures signal == Go ==> spent == Spent(usage)
    {
      var n := dispatches;
      trace := trace + [Dispatch(batch, LoadCursor().interrupt, Spent(usage), chosen.maximumCost, store.results)];
      changes := changes + world.changeRequests(n);
      dispatches := dispatches + 1;
      if world.raises(n) {
        return Fail, spent0;
      }
      signal, spent := AbsorbResults(world, batch, n, spent0);
    }

    /** `_spent` */
    method RecordedSpend() returns (spent: real)
      ensures spent == Spent(usage)
    {
      spent := 0.0;
      for i := 0 to |usage|
        invariant spent == Spent(usage[..i])
      {
        SpentAppend(usage[..i], usage[i]);
        assert usage[..i + 1] == usage[..i] + [usage[i]];
        spent := spent + usage[i].cost;
      }
      assert usage[..|usage|] == usage;
    }

    /**
      `execute`. A pending interrupt is answered without any work; otherwise the first batch leaves and its reports
      decide the outcome. Safety is kept, and a stop or a completion drops the policy just stored.
     */
    method Execute(world: World, chosen: Policy) returns (reply: Reply)
      requires Valid()
      modifies this, store
      ensures Valid() && (Snapshot(), reply) == ProviderExecution.Execute(old(Snapshot()), world, plan, chosen)
      ensures old(Snapshot()).interrupt.Some? ==>
        reply == Waiting(old(Snapshot()).interrupt.value) && Snapshot() == old(Snapshot()).(policy := Some(chosen))
      ensures Answers(old(Snapshot()).(policy := Some(chosen)), Snapshot(), world, plan, chosen, reply)
      ensures NonNegative(world) && Safe(old(Snapshot()), world, plan) ==>
        Safe(Snapshot(), world, plan) && |trace| <= |old(trace)| + 1 && Settled(Snapshot(), reply)
    {
      ghost var before := Snapshot();
      cursor := Some(LoadCursor().(policy := Some(chosen)));
      reply := RunWithPolicy(world, chosen);
      CallOutcome(before.(policy := Some(chosen)), world, plan, chosen);
      if NonNegative(world) && Safe(before, world, plan) {
        StepSafe(before, world, plan, DoExecute(chosen));
        StepReply(before, world, plan, DoExecute(chosen));
      }
    }

    /**
      `resume`. Without a stored policy nothing changes; otherwise the decision says which results are cleared, and
      the stored policy runs on the others under the same guarantees.
     */
    method Resume(world: World, decision: Decision) returns (reply: Reply)
      requires Valid()
      modifies this, store
      ensures Valid() && (Snapshot(), reply) == ProviderExecution.Resume(old(Snapshot()), world, plan, decision)
      ensures decision.Unknown? || old(Snapshot()).policy.None? ==> reply == Raised && Snapshot() == old(Snapshot())
      ensures old(Snapshot()).policy.Some? ==> Resumes(old(Snapshot()), Snapshot(), world, plan, decision, reply)
      ensures NonNegative(world) && Safe(old(Snapshot()), world, plan) ==>
        Safe(Snapshot(), world, plan) && |trace| <= |old(trace)| + 1 && Settled(Snapshot(), reply)
    {
      ghost var before := Snapshot();
      if NonNegative(world) && Safe(before, world, plan) {
        StepSafe(before, world, plan, DoResume(decision));
        StepReply(before, world, plan, DoResume(decision));
      }
      if before.policy.Some? {
        ResumeOutcome(before, world, plan, decision);
      }
      var policy := LoadCursor().policy;
      if decision.Unknown? || policy.None? {
        return Raised;
      }
      if decision.Retry? {
        var ok := ClearResults(decision.taskIds);
        if !ok {
          return Raised;
        }
      }
      cursor := Some(Cursor(None, policy));
      reply := RunWithPolicy(world, policy.value);
    }

    /** The loop of `resume` that clears results; an id outside the plan stops it half-way. */
    method ClearResults(taskIds: seq<string>) returns (ok: bool)
      requires Valid()
      modifies store
      ensures (store.results, ok) ==
        if taskIds == [] then (map[], true) else ClearAll(old(store.results), TaskIds(plan.tasks), taskIds)
    {
      if taskIds == [] {
        store.results := map[];
        return true;
      }
      for i := 0 to |taskIds|
        invariant ClearAll(store.results, store.ids, taskIds[i..]) == ClearAll(old(store.results), store.ids, taskIds)
      {
        assert taskIds[i..][0] == taskIds[i] && taskIds[i..][1..] == taskIds[i + 1..];
        ok := store.ClearResult(taskIds[i]);
        if !ok {
          return;
        }
      }
      ok := true;
    }

    /**
      `cancel` marks exactly its targets, refuses a task outside the plan, and leaves cursor, usage and events alone.
     */
    method Cancel(task: Option<string>) returns (reply: Reply)
      requires Valid()
      modifies store
      ensures (Snapshot(), reply) == ProviderExecution.Cancel(old(Snapshot()), plan, task)
      ensures reply == Raised <==> task.Some? && task.value != "" && task.value !in TaskIds(plan.tasks)
      ensures reply == Raised ==> store.results == old(store.results)
      ensures reply != Raised ==> CancelsExactly(Targets(plan, task), old(store.results), store.results)
    {
      if Single(task) {
        var ok := store.RecordResult(task.value, Cancelled);
        return if ok then Completed else Raised;
      }
      assert AllCancelled(store.results, TaskIds([])) == store.results;
      for i := 0 to |plan.tasks|
        invariant store.results == AllCancelled(old(store.results), TaskIds(plan.tasks[..i]))
      {
        NextTarget(plan.tasks, i, old(store.results));
        var ok := store.RecordResult(plan.tasks[i].id, Cancelled);
      }
      assert plan.tasks[..|plan.tasks|] == plan.tasks;
      reply := Completed;
    }
  }

  /** The named task; every task of the plan if none is named, or only the empty id. */
  function Targets(plan: Plan, task: Option<string>): set<string> {
    match task
    case None => TaskIds(plan.tasks)
    case Some(id) => if |id| > 0 then {id} else TaskIds(plan.tasks)
  }

  /** The targets are cancelled, every other result is as before, and no other id appears. */
  ghost predicate CancelsExactly(targets: set<string>, before: Results, after: Results) {
    && after.Keys == before.Keys + targets
    && forall id :: id in after ==> after[id] == if id in targets then Cancelled else before[id]
  }

  ghost function AllCancelled(results: Results, ids: set<string>): Results {
    results + map id | id in ids :: Cancelled
  }

  lemma NextTarget(tasks: seq<Task>, i: nat, results: Results)
    requires i < |tasks|
    ensures tasks[i].id in TaskIds(tasks)
    ensures AllCancelled(results, TaskIds(tasks[..i + 1])) ==
      AllCancelled(results, TaskIds(tasks[..i]))[tasks[i].id := Cancelled]
  {
    assert tasks[..i + 1] == tasks[..i] + [tasks[i]];
    assert TaskIds(tasks[..i + 1]) == TaskIds(tasks[..i]) + {tasks[i].id};
    assert tasks[i] in tasks;
    OneMore(results, TaskIds(tasks[..i]), tasks[i].id);
  }

  lemma OneMore(results: Results, ids: set<string>, id: string)
    ensures AllCancelled(results, ids + {id}) == AllCancelled(results, ids)[id := Cancelled]
  {
  }
}

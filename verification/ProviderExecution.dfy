/** Provider runs as a state machine: resumable batch execution with interrupts and a cost ceiling. */
module ProviderExecution {
  import opened Collections
  import opened Scheduling

  datatype Interrupt = BudgetExcess | ContractChange | ProviderFailure | IntegrationApproval

  datatype ProviderStatus = PSuccess | PFailed | PBlocked | PCancelled | PTimeout | PUnknown

  /** What one provider call reports. `rejected` means the run store refuses the task result. */
  datatype ProviderResult = ProviderResult(status: ProviderStatus, cost: real, taskStatus: Option<Status>,
      rejected: bool)

  /** Providers, by dispatch number and position in the batch; a whole dispatch may also raise. */
  datatype World = World(result: (nat, nat) -> ProviderResult, raises: nat -> bool, changeRequests: nat -> set<string>)

  datatype Usage = Usage(taskId: string, cost: real)

  /** What is known when a batch leaves: kept for the proofs, no operation reads it. */
  datatype Dispatch = Dispatch(batch: Batch, pending: Option<Interrupt>, spent: real, maximum: Option<real>,
      results: Results)

  datatype State = State(
    interrupt: Option<Interrupt>, policy: Option<Policy>, usage: seq<Usage>, changes: set<string>, results: Results,
      trace: seq<Dispatch>)

  datatype Reply = Interrupted(reason: Interrupt) | Waiting(reason: Interrupt) | Completed | Raised

  datatype Decision = Continue | Retry(taskIds: seq<string>) | Unknown

  /** `_spent`: the sum of the recorded usage. */
  function Spent(usage: seq<Usage>): real {
    if usage == [] then 0.0 else Spent(usage[..|usage| - 1]) + usage[|usage| - 1].cost
  }

  function StatusOf(r: ProviderResult): Status {
    if r.taskStatus.Some? then r.taskStatus.value
    else
      match r.status
      case PSuccess => Success
      case PBlocked => Blocked
      case PCancelled => Cancelled
      case _ => Failed
  }

  function Stop(s: State, reason: Interrupt): State {
    s.(interrupt := Some(reason), policy := None)
  }

  // ---------------------------------------------------------------- one call, step by step

  datatype Signal = Go | Halt(reason: Interrupt) | Fail

  /** The loop over the results of batch `n`, from position `j`. */
  function Absorb(s: State, world: World, batch: Batch, n: nat, j: nat): (State, Signal)
    requires j <= |batch|
    decreases |batch| - j
  {
    if j == |batch| then (s, Go)
    else
      var result := world.result(n, j);
      var task := batch[j].taskId;
      if result.rejected then (s, Fail)
      else
        var s' := s.(results := s.results[task := StatusOf(result)], usage := s.usage + [Usage(task, result.cost)]);
        if task in s'.changes then (s', Halt(ContractChange))
        else if !result.status.PSuccess? && !result.status.PCancelled? then (s', Halt(ProviderFailure))
        else Absorb(s', world, batch, n, j + 1)
  }

  function Over(spent: real, policy: Policy): bool {
    policy.maximumCost.Some? && spent > policy.maximumCost.value
  }

  function Reached(spent: real, policy: Policy): bool {
    policy.maximumCost.Some? && spent >= policy.maximumCost.value
  }

  /** `_dispatch`: the batch goes out and its events are appended. */
  function Sent(s: State, world: World, policy: Policy, batch: Batch): State {
    s.(trace := s.trace + [Dispatch(batch, s.interrupt, Spent(s.usage), policy.maximumCost, s.results)],
       changes := s.changes + world.changeRequests(|s.trace|))
  }

  /** The loop over the compiled batches, from position `i`. */
  function RunBatches(s: State, world: World, policy: Policy, batches: seq<Batch>, i: nat): (State, Reply)
    requires i <= |batches|
    decreases |batches| - i
  {
    if i == |batches| then (s.(interrupt := None, policy := None), Completed)
    else if Reached(Spent(s.usage), policy) then (Stop(s, BudgetExcess), Interrupted(BudgetExcess))
    else
      var sent := Sent(s, world, policy, batches[i]);
      if world.raises(|s.trace|) then (sent, Raised)
      else
        var (s', signal) := Absorb(sent, world, batches[i], |s.trace|, 0);
        match signal
        case Fail => (s', Raised)
        case Halt(reason) => (Stop(s', reason), Interrupted(reason))
        case Go =>
          if Over(Spent(s'.usage), policy) then (Stop(s', BudgetExcess), Interrupted(BudgetExcess))
          else if batches[i] != batches[|batches| - 1] then
            (Stop(s', IntegrationApproval), Interrupted(IntegrationApproval))
          else RunBatches(s', world, policy, batches, i + 1)
  }

  function ExecuteWithPolicy(s: State, world: World, plan: Plan, policy: Policy): (State, Reply) {
    if s.interrupt.Some? then (s, Waiting(s.interrupt.value))
    else RunBatches(s, world, policy, Compile(plan, policy, s.results), 0)
  }

  function Execute(s: State, world: World, plan: Plan, policy: Policy): (State, Reply) {
    ExecuteWithPolicy(s.(policy := Some(policy)), world, plan, policy)
  }

  /** The loop that clears results before a retry; a foreign task id raises half-way. */
  function ClearAll(results: Results, ids: set<string>, targets: seq<string>): (Results, bool) {
    if targets == [] then (results, true)
    else if targets[0] !in ids then (results, false)
    else ClearAll(results - {targets[0]}, ids, targets[1..])
  }

  /** Without task ids a retry clears every result; the run store holds results for tasks of the plan only. */
  function Resume(s: State, world: World, plan: Plan, decision: Decision): (State, Reply) {
    if decision.Unknown? || s.policy.None? then (s, Raised)
    else
      var (cleared, ok) :=
        if decision.Continue? then (s.results, true)
        else if decision.taskIds == [] then (map[], true)
        else ClearAll(s.results, TaskIds(plan.tasks), decision.taskIds);
      var s' := s.(results := cleared);
      if !ok then (s', Raised)
      else ExecuteWithPolicy(s'.(interrupt := None), world, plan, s.policy.value)
  }

  /** `cancel` truth-tests the task id: the empty one, like none at all, stands for every task. */
  predicate Single(task: Option<string>) {
    task.Some? && task.value != ""
  }

  /** `cancel` records a result for the target tasks and touches neither cursor nor usage. */
  function Cancel(s: State, plan: Plan, task: Option<string>): (State, Reply) {
    if !Single(task) then (s.(results := s.results + map id | id in TaskIds(plan.tasks) :: Cancelled), Completed)
    else if task.value !in TaskIds(plan.tasks) then (s, Raised)
    else (s.(results := s.results[task.value := Cancelled]), Completed)
  }

  datatype Operation = DoExecute(policy: Policy) | DoResume(decision: Decision) | DoCancel(task: Option<string>)

  function Apply(s: State, world: World, plan: Plan, op: Operation): (State, Reply) {
    match op
    case DoExecute(policy) => Execute(s, world, plan, policy)
    case DoResume(decision) => Resume(s, world, plan, decision)
    case DoCancel(task) => Cancel(s, plan, task)
  }

  ghost function Run(s: State, world: World, plan: Plan, ops: seq<Operation>): State
    decreases |ops|
  {
    if ops == [] then s else Run(Apply(s, world, plan, ops[0]).0, world, plan, ops[1..])
  }

  const FRESH := State(None, None, [], {}, map[], [])

  lemma SpentAppend(usage: seq<Usage>, u: Usage)
    ensures Spent(usage + [u]) == Spent(usage) + u.cost
  {
    assert (usage + [u])[..|usage|] == usage;
  }
}

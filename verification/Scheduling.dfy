/** Which tasks of a run are ready, and how they are grouped into provider batches. */
module Scheduling {
  import opened Collections

  datatype Status = Pending | Running | Success | Failed | Blocked | Cancelled

  datatype Task = Task(id: string, role: string, dependencies: seq<string>)

  datatype Plan = Plan(tasks: seq<Task>, maximumParallel: nat)

  datatype Policy = Policy(defaultProvider: string, roleOverrides: map<string, string>, maximumPerProvider: nat,
      maximumCost: Option<real>)

  datatype Request = Request(taskId: string, providerId: string)

  type Results = map<string, Status>

  function TaskIds(tasks: seq<Task>): (ids: set<string>)
    ensures forall x :: x in ids <==> exists t :: t in tasks && t.id == x
  {
    set t | t in tasks :: t.id
  }

  predicate Eligible(t: Task, results: Results) {
    t.id !in results && forall d :: d in t.dependencies ==> d in results && results[d] == Success
  }

  /** Recorded results that are pending or running reserve a slot. */
  function InFlight(statuses: Results): nat {
    |set x | x in statuses && (statuses[x] == Pending || statuses[x] == Running)|
  }

  /** `ready_tasks`: the scan over the plan with the ids scheduled so far and the slots left. */
  function ReadyFrom(tasks: seq<Task>, results: Results, scheduled: set<string>, slots: nat): seq<Task> {
    if tasks == [] || slots == 0 then []
    else if Eligible(tasks[0], results) && tasks[0].id !in scheduled then
      [tasks[0]] + ReadyFrom(tasks[1..], results, scheduled + {tasks[0].id}, slots - 1)
    else ReadyFrom(tasks[1..], results, scheduled, slots)
  }

  /** `statuses`: results for ids outside the plan are dropped before anything is decided. */
  function Known(plan: Plan, results: Results): Results {
    map x | x in results && x in TaskIds(plan.tasks) :: results[x]
  }

  function FreeSlots(plan: Plan, results: Results): nat {
    var busy := InFlight(results);
    if busy < plan.maximumParallel then plan.maximumParallel - busy else 0
  }

  function ReadyTasks(plan: Plan, results: Results): seq<Task> {
    var statuses := Known(plan, results);
    ReadyFrom(plan.tasks, statuses, {}, FreeSlots(plan, statuses))
  }

  lemma SelectNext(tasks: seq<Task>, i: nat, results: Results, scheduled: set<string>, slots: nat)
    requires i < |tasks| && slots > 0
    ensures ReadyFrom(tasks[i..], results, scheduled, slots) ==
      if Eligible(tasks[i], results) && tasks[i].id !in scheduled then
        [tasks[i]] + ReadyFrom(tasks[i + 1..], results, scheduled + {tasks[i].id}, slots - 1)
      else ReadyFrom(tasks[i + 1..], results, scheduled, slots)
    ensures ReadyFrom(tasks[i + 1..], results, scheduled + {tasks[i].id}, 0) == []
  {
    var rest := tasks[i..];
    assert rest[0] == tasks[i] && rest[1..] == tasks[i + 1..];
  }

  lemma OneMoreTask(t: Task, rest: seq<Task>)
    requires forall i, j :: 0 <= i < j < |rest| ==> rest[i].id != rest[j].id
    requires forall u :: u in rest ==> u.id != t.id
    ensures var ts := [t] + rest;
      && (forall u :: u in ts <==> u == t || u in rest)
      && (forall i, j :: 0 <= i < j < |ts| ==> ts[i].id != ts[j].id)
  {
    var ts := [t] + rest;
    forall i, j | 0 <= i < j < |ts| ensures ts[i].id != ts[j].id {
      assert ts[j] == rest[j - 1] && rest[j - 1] in rest;
      assert i > 0 ==> ts[i] == rest[i - 1];
    }
  }

  lemma {:induction false} ReadyFromSound(tasks: seq<Task>, results: Results, scheduled: set<string>, slots: nat)
    ensures var ready := ReadyFrom(tasks, results, scheduled, slots);
            && |ready| <= slots
            && (forall t :: t in ready ==> t in tasks && Eligible(t, results) && t.id !in scheduled)
            && (forall i, j :: 0 <= i < j < |ready| ==> ready[i].id != ready[j].id)
  {
    if tasks != [] && slots != 0 {
      if Eligible(tasks[0], results) && tasks[0].id !in scheduled {
        var rest := ReadyFrom(tasks[1..], results, scheduled + {tasks[0].id}, slots - 1);
        ReadyFromSound(tasks[1..], results, scheduled + {tasks[0].id}, slots - 1);
        assert ReadyFrom(tasks, results, scheduled, slots) == [tasks[0]] + rest;
        OneMoreTask(tasks[0], rest);
      } else {
        ReadyFromSound(tasks[1..], results, scheduled, slots);
      }
    }
  }

  /** With a slot to spare, no eligible task is passed over. */
  lemma {:induction false} ReadyFromComplete(tasks: seq<Task>, results: Results, scheduled: set<string>, slots: nat,
      t: Task)
    requires |ReadyFrom(tasks, results, scheduled, slots)| < slots
    requires t in tasks && Eligible(t, results)
    ensures t.id in scheduled || exists u :: u in ReadyFrom(tasks, results, scheduled, slots) && u.id == t.id
  {
    var ready := ReadyFrom(tasks, results, scheduled, slots);
    if Eligible(tasks[0], results) && tasks[0].id !in scheduled {
      assert ready[0] == tasks[0];
      if t.id != tasks[0].id {
        ReadyFromComplete(tasks[1..], results, scheduled + {tasks[0].id}, slots - 1, t);
        if u :| u in ready[1..] && u.id == t.id {
          assert u in ready;
        }
      } else {
        assert tasks[0] in ready;
      }
    } else if t != tasks[0] {
      ReadyFromComplete(tasks[1..], results, scheduled, slots, t);
    }
  }

  /** The task is in the plan, undecided, and all its dependencies have succeeded within the plan. */
  ghost predicate Ready(plan: Plan, results: Results, t: Task) {
    && t in plan.tasks && t.id !in results
    && forall d :: d in t.dependencies ==> d in TaskIds(plan.tasks) && d in results && results[d] == Success
  }

  lemma ReadyIsEligible(plan: Plan, results: Results, t: Task)
    requires t in plan.tasks
    ensures Eligible(t, Known(plan, results)) <==> Ready(plan, results, t)
  {
    assert t.id in TaskIds(plan.tasks);
  }

  /** The tasks of the plan whose recorded result still holds a slot. */
  ghost function Busy(plan: Plan, results: Results): set<string> {
    set x | x in TaskIds(plan.tasks) && x in results && (results[x].Pending? || results[x].Running?)
  }

  lemma FreeSlotsMeans(plan: Plan, results: Results)
    ensures var free := plan.maximumParallel - |Busy(plan, results)|;
      FreeSlots(plan, Known(plan, results)) == if free > 0 then free else 0
  {
    var statuses := Known(plan, results);
    assert Busy(plan, results) == set x | x in statuses && (statuses[x] == Pending || statuses[x] == Running);
  }

  /** Only ready tasks are returned, each id once, and never more than the capacity the busy tasks leave. */
  lemma ReadyTasksSound(plan: Plan, results: Results)
    ensures var ready := ReadyTasks(plan, results);
      && (ready != [] ==> |Busy(plan, results)| + |ready| <= plan.maximumParallel)
      && (forall t :: t in ready ==> Ready(plan, results, t))
      && (forall i, j :: 0 <= i < j < |ready| ==> ready[i].id != ready[j].id)
  {
    var statuses := Known(plan, results);
    FreeSlotsMeans(plan, results);
    ReadyFromSound(plan.tasks, statuses, {}, FreeSlots(plan, statuses));
    forall t | t in ReadyTasks(plan, results) ensures Ready(plan, results, t) {
      ReadyIsEligible(plan, results, t);
    }
  }

  /** With a slot to spare, every ready task is returned, or another one under the same id. */
  lemma ReadyTasksComplete(plan: Plan, results: Results, t: Task)
    requires |Busy(plan, results)| + |ReadyTasks(plan, results)| < plan.maximumParallel && Ready(plan, results, t)
    ensures exists u :: u in ReadyTasks(plan, results) && u.id == t.id
  {
    var statuses := Known(plan, results);
    FreeSlotsMeans(plan, results);
    ReadyIsEligible(plan, results, t);
    ReadyFromComplete(plan.tasks, statuses, {}, FreeSlots(plan, statuses), t);
  }

  /** Task `i` of the plan is ready, and the first of its id to be so. */
  ghost predicate Due(plan: Plan, results: Results, i: nat) {
    && i < |plan.tasks| && Ready(plan, results, plan.tasks[i])
    && forall j :: 0 <= j < i && Ready(plan, results, plan.tasks[j]) ==> plan.tasks[j].id != plan.tasks[i].id
  }

  /** The due tasks from position `i`, in plan order. */
  ghost function DueFrom(plan: Plan, results: Results, i: nat): seq<Task>
    requires i <= |plan.tasks|
    decreases |plan.tasks| - i
  {
    if i == |plan.tasks| then []
    else (if Due(plan, results, i) then [plan.tasks[i]] else []) + DueFrom(plan, results, i + 1)
  }

  ghost function First<T>(s: seq<T>, n: nat): seq<T> {
    if n <= |s| then s[..n] else s
  }

  lemma FirstNext<T>(x: T, rest: seq<T>, n: nat)
    requires n > 0
    ensures First([x] + rest, n) == [x] + First(rest, n - 1)
  {
  }

  ghost function ReadyIds(plan: Plan, results: Results, i: nat): set<string>
    requires i <= |plan.tasks|
  {
    set j | 0 <= j < i && Ready(plan, results, plan.tasks[j]) :: plan.tasks[j].id
  }

  lemma DueNext(plan: Plan, results: Results, i: nat)
    requires i < |plan.tasks|
    ensures var t := plan.tasks[i];
      && (Due(plan, results, i) <==> Eligible(t, Known(plan, results)) && t.id !in ReadyIds(plan, results, i))
      && ReadyIds(plan, results, i + 1) == ReadyIds(plan, results, i) + if Due(plan, results, i) then {t.id} else {}
  {
    ReadyIsEligible(plan, results, plan.tasks[i]);
    var before, after := ReadyIds(plan, results, i), ReadyIds(plan, results, i + 1);
    forall j | 0 <= j < i && Ready(plan, results, plan.tasks[j]) ensures plan.tasks[j].id in after {
    }
    if Ready(plan, results, plan.tasks[i]) {
      assert plan.tasks[i].id in after;
      assert after == before + {plan.tasks[i].id};
    } else {
      assert after == before;
    }
  }

  lemma SelectDue(plan: Plan, results: Results, i: nat, slots: nat)
    requires i < |plan.tasks| && slots > 0
    ensures var later := ReadyIds(plan, results, i + 1);
      ReadyFrom(plan.tasks[i..], Known(plan, results), ReadyIds(plan, results, i), slots) ==
        if Due(plan, results, i) then
          [plan.tasks[i]] + ReadyFrom(plan.tasks[i + 1..], Known(plan, results), later, slots - 1)
        else ReadyFrom(plan.tasks[i + 1..], Known(plan, results), later, slots)
  {
    DueNext(plan, results, i);
    SelectNext(plan.tasks, i, Known(plan, results), ReadyIds(plan, results, i), slots);
    assert !Due(plan, results, i) ==> ReadyIds(plan, results, i + 1) == ReadyIds(plan, results, i);
  }

  lemma DueUnfolds(plan: Plan, results: Results, i: nat)
    requires i < |plan.tasks|
    ensures var rest := DueFrom(plan, results, i + 1);
      DueFrom(plan, results, i) == if Due(plan, results, i) then [plan.tasks[i]] + rest else rest
  {
  }

  lemma {:induction false} ReadyFromIsDue(plan: Plan, results: Results, i: nat, slots: nat)
    requires i <= |plan.tasks|
    ensures ReadyFrom(plan.tasks[i..], Known(plan, results), ReadyIds(plan, results, i), slots) ==
      First(DueFrom(plan, results, i), slots)
    decreases |plan.tasks| - i
  {
    if i < |plan.tasks| && slots > 0 {
      SelectDue(plan, results, i, slots);
      DueUnfolds(plan, results, i);
      if Due(plan, results, i) {
        ReadyFromIsDue(plan, results, i + 1, slots - 1);
        FirstNext(plan.tasks[i], DueFrom(plan, results, i + 1), slots);
      } else {
        ReadyFromIsDue(plan, results, i + 1, slots);
      }
    }
  }

  /** The ready tasks are the first due ones in plan order, as many as the busy tasks leave room for. */
  lemma ReadyTasksAreFirst(plan: Plan, results: Results)
    ensures var free := plan.maximumParallel - |Busy(plan, results)|;
      ReadyTasks(plan, results) == First(DueFrom(plan, results, 0), if free > 0 then free else 0)
  {
    FreeSlotsMeans(plan, results);
    ReadyFromIsDue(plan, results, 0, FreeSlots(plan, Known(plan, results)));
    assert plan.tasks[0..] == plan.tasks && ReadyIds(plan, results, 0) == {};
  }

  /** A task that depends on an id outside the plan is never dispatched, whatever is recorded for that id. */
  lemma ForeignDependencyNeverReady(plan: Plan, results: Results, t: Task, d: string)
    requires d in t.dependencies && d !in TaskIds(plan.tasks)
    ensures t !in ReadyTasks(plan, results)
  {
    ReadyTasksSound(plan, results);
  }

  // ---------------------------------------------------------------- first-fit batches

  type Batch = seq<Request>

  function CountProvider(batch: Batch, provider: string): nat {
    if batch == [] then 0
    else CountProvider(batch[..|batch| - 1], provider) + if batch[|batch| - 1].providerId == provider then 1 else 0
  }

  /** Into the first batch with room for its provider, or into a new one. */
  function Place(batches: seq<Batch>, r: Request, maximum: nat): seq<Batch> {
    if batches == [] then [[r]]
    else if CountProvider(batches[0], r.providerId) < maximum then [batches[0] + [r]] + batches[1..]
    else [batches[0]] + Place(batches[1..], r, maximum)
  }

  /** `_split_batch` */
  function SplitBatch(requests: seq<Request>, maximum: nat): seq<Batch> {
    if requests == [] then []
    else Place(SplitBatch(requests[..|requests| - 1], maximum), requests[|requests| - 1], maximum)
  }

  ghost function Flatten(batches: seq<Batch>): multiset<Request> {
    if batches == [] then multiset{} else multiset(batches[0]) + Flatten(batches[1..])
  }

  lemma {:induction false} PlaceFlattens(batches: seq<Batch>, r: Request, maximum: nat)
    ensures Flatten(Place(batches, r, maximum)) == Flatten(batches) + multiset{r}
  {
    if batches == [] {
      assert Place(batches, r, maximum)[1..] == [];
    } else if CountProvider(batches[0], r.providerId) < maximum {
      assert Place(batches, r, maximum)[1..] == batches[1..];
    } else {
      PlaceFlattens(batches[1..], r, maximum);
      assert Place(batches, r, maximum)[1..] == Place(batches[1..], r, maximum);
    }
  }

  lemma {:induction false} PlaceNonEmpty(batches: seq<Batch>, r: Request, maximum: nat)
    requires forall i :: 0 <= i < |batches| ==> |batches[i]| > 0
    ensures forall i :: 0 <= i < |Place(batches, r, maximum)| ==> |Place(batches, r, maximum)[i]| > 0
  {
    if batches != [] && CountProvider(batches[0], r.providerId) >= maximum {
      PlaceNonEmpty(batches[1..], r, maximum);
    }
  }

  lemma {:induction false} SplitNonEmpty(requests: seq<Request>, maximum: nat)
    ensures forall i :: 0 <= i < |SplitBatch(requests, maximum)| ==> |SplitBatch(requests, maximum)[i]| > 0
  {
    if requests != [] {
      var before := requests[..|requests| - 1];
      SplitNonEmpty(before, maximum);
      PlaceNonEmpty(SplitBatch(before, maximum), requests[|requests| - 1], maximum);
    }
  }

  lemma LastCounts(requests: seq<Request>)
    requires requests != []
    ensures var last := |requests| - 1;
      multiset(requests) == multiset(requests[..last]) + multiset{requests[last]}
  {
    var last := |requests| - 1;
    assert requests == requests[..last] + [requests[last]];
  }

  lemma {:induction false} SplitFlattens(requests: seq<Request>, maximum: nat)
    ensures Flatten(SplitBatch(requests, maximum)) == multiset(requests)
  {
    if requests != [] {
      var last := |requests| - 1;
      SplitFlattens(requests[..last], maximum);
      PlaceFlattens(SplitBatch(requests[..last], maximum), requests[last], maximum);
      LastCounts(requests);
    }
  }

  /** Every request lands in exactly one batch and no batch is empty. */
  lemma SplitPartitions(requests: seq<Request>, maximum: nat)
    ensures Flatten(SplitBatch(requests, maximum)) == multiset(requests)
    ensures forall i :: 0 <= i < |SplitBatch(requests, maximum)| ==> |SplitBatch(requests, maximum)[i]| > 0
  {
    SplitFlattens(requests, maximum);
    SplitNonEmpty(requests, maximum);
  }

  lemma {:induction false} PlaceRespectsLimit(batches: seq<Batch>, r: Request, maximum: nat)
    requires maximum >= 1 && forall b, p :: b in batches ==> CountProvider(b, p) <= maximum
    ensures forall b, p :: b in Place(batches, r, maximum) ==> CountProvider(b, p) <= maximum
  {
    if batches == [] {
      assert forall p :: CountProvider([r], p) == CountProvider([], p) + if r.providerId == p then 1 else 0 by {
        assert [r][..0] == [];
      }
    } else if CountProvider(batches[0], r.providerId) < maximum {
      var grown := batches[0] + [r];
      assert grown[..|grown| - 1] == batches[0];
      assert forall p :: CountProvider(grown, p) == CountProvider(batches[0], p) + if r.providerId == p then 1 else 0;
    } else {
      PlaceRespectsLimit(batches[1..], r, maximum);
    }
  }

  /** No batch holds more requests for a provider than the policy allows in parallel. */
  lemma {:induction false} SplitRespectsLimit(requests: seq<Request>, maximum: nat)
    requires maximum >= 1
    ensures forall b, p :: b in SplitBatch(requests, maximum) ==> CountProvider(b, p) <= maximum
  {
    if requests != [] {
      var last := |requests| - 1;
      SplitRespectsLimit(requests[..last], maximum);
      PlaceRespectsLimit(SplitBatch(requests[..last], maximum), requests[last], maximum);
    }
  }

  ghost function Positions(batch: Batch, provider: string): set<int> {
    set k | 0 <= k < |batch| && batch[k].providerId == provider
  }

  lemma PositionsNext(batch: Batch, provider: string)
    requires batch != []
    ensures var last := |batch| - 1;
      && last !in Positions(batch[..last], provider)
      && Positions(batch, provider) ==
          Positions(batch[..last], provider) + if batch[last].providerId == provider then {last} else {}
  {
  }

  lemma {:induction false} CountIsNumber(batch: Batch, provider: string)
    ensures CountProvider(batch, provider) == |Positions(batch, provider)|
  {
    if batch != [] {
      PositionsNext(batch, provider);
      CountIsNumber(batch[..|batch| - 1], provider);
    }
  }

  /** Where a request goes: to the end of the first batch with room for its provider, or into a new last one. */
  lemma {:induction false} PlaceAt(batches: seq<Batch>, r: Request, maximum: nat) returns (i: nat)
    ensures i <= |batches| && forall j :: 0 <= j < i ==> CountProvider(batches[j], r.providerId) >= maximum
    ensures i < |batches| ==> CountProvider(batches[i], r.providerId) < maximum
    ensures Place(batches, r, maximum) ==
      if i < |batches| then batches[i := batches[i] + [r]] else batches + [[r]]
  {
    if batches == [] || CountProvider(batches[0], r.providerId) < maximum {
      i := 0;
    } else {
      var rest := batches[1..];
      var k := PlaceAt(rest, r, maximum);
      i := k + 1;
      assert batches == [batches[0]] + rest;
      assert forall j :: 0 < j < i ==> batches[j] == rest[j - 1];
      if k < |rest| {
        assert batches[i] == rest[k] && batches[i := batches[i] + [r]] == [batches[0]] + rest[k := rest[k] + [r]];
      } else {
        assert batches + [[r]] == [batches[0]] + (rest + [[r]]);
      }
    }
  }

  ghost predicate Precedes(requests: seq<Request>, x: Request, y: Request) {
    exists k, l :: 0 <= k < l < |requests| && requests[k] == x && requests[l] == y
  }

  /** A batch is full for the provider of every request in a later batch. */
  ghost predicate FullBefore(batches: seq<Batch>, maximum: nat) {
    forall i, j, r: Request ::
      0 <= i < j < |batches| && r in batches[j] ==> CountProvider(batches[i], r.providerId) >= maximum
  }

  /** Requests keep their order within a batch, and those for one provider from batch to batch. */
  ghost predicate KeepsOrder(requests: seq<Request>, batches: seq<Batch>) {
    && (forall i, a, b :: 0 <= i < |batches| && 0 <= a < b < |batches[i]| ==>
          Precedes(requests, batches[i][a], batches[i][b]))
    && forall i, j, x: Request, y: Request ::
      0 <= i < j < |batches| && x in batches[i] && y in batches[j] && SameProvider(x, y) ==> Precedes(requests, x, y)
  }

  ghost predicate SameProvider(x: Request, y: Request) {
    x.providerId == y.providerId
  }

  /** Every batch is as full as it can be with the requests that come after it, and order is kept. */
  lemma {:induction false} SplitIsFirstFit(requests: seq<Request>, maximum: nat)
    ensures FullBefore(SplitBatch(requests, maximum), maximum) && KeepsOrder(requests, SplitBatch(requests, maximum))
  {
    if requests != [] {
      var last := |requests| - 1;
      var before, r := SplitBatch(requests[..last], maximum), requests[last];
      SplitIsFirstFit(requests[..last], maximum);
      var i := PlaceAt(before, r, maximum);
      GrowsFull(before, r, maximum, i);
      forall b, x | 0 <= b < |before| && x in before[b] ensures x in requests[..last] {
        BatchMember(requests[..last], maximum, b, x);
      }
      GrowsInOrder(requests, before, maximum, i);
    }
  }

  /** `batches` with `r` at the end of batch `i`, or in a new last batch. */
  ghost function Grown(batches: seq<Batch>, r: Request, i: nat): seq<Batch>
    requires i <= |batches|
  {
    if i < |batches| then batches[i := batches[i] + [r]] else batches + [[r]]
  }

  lemma CountGrows(batch: Batch, r: Request, provider: string)
    ensures CountProvider(batch + [r], provider) ==
      CountProvider(batch, provider) + if r.providerId == provider then 1 else 0
  {
    assert (batch + [r])[..|batch|] == batch;
  }

  lemma GrowsFull(batches: seq<Batch>, r: Request, maximum: nat, i: nat)
    requires FullBefore(batches, maximum) && i <= |batches|
    requires forall j :: 0 <= j < i ==> CountProvider(batches[j], r.providerId) >= maximum
    ensures FullBefore(Grown(batches, r, i), maximum)
  {
    var grown := Grown(batches, r, i);
    forall a, b, x: Request | 0 <= a < b < |grown| && x in grown[b]
      ensures CountProvider(grown[a], x.providerId) >= maximum
    {
      if a == i {
        CountGrows(batches[i], r, x.providerId);
      }
      if b == i && x == r {
        assert CountProvider(batches[a], r.providerId) >= maximum;
      } else {
        assert x in batches[b];
      }
    }
  }

  lemma PrecedesMore(requests: seq<Request>, x: Request, y: Request)
    requires requests != []
    ensures Precedes(requests[..|requests| - 1], x, y) ==> Precedes(requests, x, y)
    ensures x in requests[..|requests| - 1] ==> Precedes(requests, x, requests[|requests| - 1])
  {
  }

  lemma GrowsInOrder(requests: seq<Request>, batches: seq<Batch>, maximum: nat, i: nat)
    requires requests != [] && i <= |batches|
    requires KeepsOrder(requests[..|requests| - 1], batches) && FullBefore(batches, maximum)
    requires forall b, x :: 0 <= b < |batches| && x in batches[b] ==> x in requests[..|requests| - 1]
    requires i < |batches| ==> CountProvider(batches[i], requests[|requests| - 1].providerId) < maximum
    ensures KeepsOrder(requests, Grown(batches, requests[|requests| - 1], i))
  {
    var r := requests[|requests| - 1];
    var grown := Grown(batches, r, i);
    forall k, a, b | 0 <= k < |grown| && 0 <= a < b < |grown[k]| ensures Precedes(requests, grown[k][a], grown[k][b]) {
      assert grown[k][a] == batches[k][a];
      PrecedesMore(requests, grown[k][a], grown[k][b]);
      if k == i && b == |batches[k]| {
        assert grown[k][b] == r && batches[k][a] in batches[k];
      } else {
        assert grown[k][b] == batches[k][b];
      }
    }
    forall k, l, x: Request, y: Request | 0 <= k < l < |grown| && x in grown[k] && y in grown[l] && SameProvider(x, y)
      ensures Precedes(requests, x, y)
    {
      PrecedesMore(requests, x, y);
      if l < |batches| && y in batches[l] {
        assert k == i ==> y.providerId != r.providerId;
        assert x in batches[k];
      } else {
        assert y == r && x in batches[k];
      }
    }
  }

  lemma {:induction false} FlattenCounts(batches: seq<Batch>, i: nat, j: nat, r: Request)
    requires i < j < |batches| && r in batches[i] && r in batches[j]
    ensures Flatten(batches)[r] >= 2
  {
    if i == 0 {
      FlattenMember(batches[1..], j - 1, r);
      assert batches[1..][j - 1] == batches[j];
    } else {
      FlattenCounts(batches[1..], i - 1, j - 1, r);
    }
  }

  lemma {:induction false} FlattenMember(batches: seq<Batch>, i: nat, r: Request)
    requires i < |batches| && r in batches[i]
    ensures Flatten(batches)[r] >= 1
  {
    if i > 0 {
      FlattenMember(batches[1..], i - 1, r);
    }
  }

  function ProviderFor(policy: Policy, role: string): string {
    if role in policy.roleOverrides then policy.roleOverrides[role] else policy.defaultProvider
  }

  function RequestsFor(tasks: seq<Task>, policy: Policy): (r: seq<Request>)
    ensures |r| == |tasks|
    ensures forall i :: 0 <= i < |r| ==> r[i] == Request(tasks[i].id, ProviderFor(policy, tasks[i].role))
  {
    seq(|tasks|, i requires 0 <= i < |tasks| => Request(tasks[i].id, ProviderFor(policy, tasks[i].role)))
  }

  /** `LangGraphOrchestrator.compile` */
  function Compile(plan: Plan, policy: Policy, results: Results): seq<Batch> {
    SplitBatch(RequestsFor(ReadyTasks(plan, results), policy), policy.maximumPerProvider)
  }

  /** The role's provider if the policy overrides it, and the default one otherwise. */
  ghost predicate Assigned(policy: Policy, t: Task, r: Request) {
    && r.taskId == t.id
    && (t.role in policy.roleOverrides ==> r.providerId == policy.roleOverrides[t.role])
    && (t.role !in policy.roleOverrides ==> r.providerId == policy.defaultProvider)
  }

  ghost predicate Requests(policy: Policy, tasks: seq<Task>, requests: seq<Request>) {
    |requests| == |tasks| && forall k :: 0 <= k < |requests| ==> Assigned(policy, tasks[k], requests[k])
  }

  /** The compiled batches hold one request for each ready task, to the provider of its role, and no others. */
  lemma CompiledRequests(plan: Plan, policy: Policy, results: Results)
    ensures exists requests ::
      Requests(policy, ReadyTasks(plan, results), requests) &&
      Compile(plan, policy, results) == SplitBatch(requests, policy.maximumPerProvider)
  {
    assert Requests(policy, ReadyTasks(plan, results), RequestsFor(ReadyTasks(plan, results), policy));
  }

  ghost predicate ReadyRequest(plan: Plan, results: Results, r: Request) {
    exists t: Task :: t.id == r.taskId && Ready(plan, results, t)
  }

  /** Requests for different tasks never end up in two equal batches. */
  lemma SplitDistinct(requests: seq<Request>, maximum: nat)
    requires forall p, q :: 0 <= p < q < |requests| ==> requests[p].taskId != requests[q].taskId
    ensures Distinct(SplitBatch(requests, maximum))
  {
    var batches := SplitBatch(requests, maximum);
    SplitPartitions(requests, maximum);
    forall i, j | 0 <= i < j < |batches| ensures batches[i] != batches[j] {
      if batches[i] == batches[j] {
        var r := batches[i][0];
        FlattenCounts(batches, i, j, r);
        var p, q := TwoPositions(requests, r);
      }
    }
  }

  lemma ReadyRequests(plan: Plan, policy: Policy, results: Results)
    ensures var requests := RequestsFor(ReadyTasks(plan, results), policy);
            && (forall p, q :: 0 <= p < q < |requests| ==> requests[p].taskId != requests[q].taskId)
            && (forall k :: 0 <= k < |requests| ==> ReadyRequest(plan, results, requests[k]))
  {
    ReadyTasksSound(plan, results);
    var ready := ReadyTasks(plan, results);
    assert forall k :: 0 <= k < |ready| ==> ready[k] in ready;
  }

  lemma BatchMember(requests: seq<Request>, maximum: nat, i: nat, r: Request)
    requires i < |SplitBatch(requests, maximum)| && r in SplitBatch(requests, maximum)[i]
    ensures r in requests
  {
    SplitPartitions(requests, maximum);
    FlattenMember(SplitBatch(requests, maximum), i, r);
    assert r in multiset(requests);
  }

  /** Compiled batches are non-empty, pairwise distinct, and hold requests of ready tasks only. */
  lemma CompiledBatches(plan: Plan, policy: Policy, results: Results)
    ensures Distinct(Compile(plan, policy, results))
    ensures forall i :: 0 <= i < |Compile(plan, policy, results)| ==> Compile(plan, policy, results)[i] != []
    ensures forall i, r :: 0 <= i < |Compile(plan, policy, results)| && r in Compile(plan, policy, results)[i] ==>
      ReadyRequest(plan, results, r)
  {
    var requests := RequestsFor(ReadyTasks(plan, results), policy);
    var maximum := policy.maximumPerProvider;
    ReadyRequests(plan, policy, results);
    SplitDistinct(requests, maximum);
    SplitPartitions(requests, maximum);
    var batches := SplitBatch(requests, maximum);
    forall i, r | 0 <= i < |batches| && r in batches[i] ensures ReadyRequest(plan, results, r) {
      BatchMember(requests, maximum, i, r);
    }
  }

  // ---------------------------------------------------------------- the loops

  /** With `ready` selected and `i` tasks scanned, the rest of the scan leads to `goal`. */
  ghost predicate Selecting(tasks: seq<Task>, i: nat, results: Results, scheduled: set<string>, slots: nat,
      ready: seq<Task>, goal: seq<Task>) {
    && i <= |tasks| && |ready| < slots
    && ready + ReadyFrom(tasks[i..], results, scheduled, slots - |ready|) == goal
  }

  lemma SelectMore(tasks: seq<Task>, i: nat, results: Results, scheduled: set<string>, slots: nat, ready: seq<Task>,
      goal: seq<Task>)
    requires i < |tasks| && Selecting(tasks, i, results, scheduled, slots, ready, goal)
    ensures
      if Eligible(tasks[i], results) && tasks[i].id !in scheduled then
        if |ready| + 1 == slots then ready + [tasks[i]] == goal
        else Selecting(tasks, i + 1, results, scheduled + {tasks[i].id}, slots, ready + [tasks[i]], goal)
      else Selecting(tasks, i + 1, results, scheduled, slots, ready, goal)
  {
    SelectNext(tasks, i, results, scheduled, slots - |ready|);
    if Eligible(tasks[i], results) && tasks[i].id !in scheduled {
      var rest := ReadyFrom(tasks[i + 1..], results, scheduled + {tasks[i].id}, slots - |ready| - 1);
      assert goal == ready + ([tasks[i]] + rest) == (ready + [tasks[i]]) + rest;
    }
  }

  /** The loop of `ready_tasks`. */
  method SelectReady(plan: Plan, results: Results) returns (ready: seq<Task>)
    ensures ready == ReadyTasks(plan, results)
  {
    var statuses := Known(plan, results);
    var slots := FreeSlots(plan, statuses);
    ready := [];
    if slots > 0 {
      ready := ScanTasks(plan.tasks, statuses, slots);
    }
  }

  method ScanTasks(tasks: seq<Task>, results: Results, slots: nat) returns (ready: seq<Task>)
    requires slots > 0
    ensures ready == ReadyFrom(tasks, results, {}, slots)
  {
    ghost var goal := ReadyFrom(tasks, results, {}, slots);
    ready := [];
    var scheduled: set<string> := {};
    assert tasks[0..] == tasks;
    for i := 0 to |tasks|
      invariant Selecting(tasks, i, results, scheduled, slots, ready, goal)
    {
      var t := tasks[i];
      SelectMore(tasks, i, results, scheduled, slots, ready, goal);
      if Eligible(t, results) && t.id !in scheduled {
        ready, scheduled := ready + [t], scheduled + {t.id};
        if |ready| == slots {
          return;
        }
      }
    }
  }

  lemma PlaceNext(batches: seq<Batch>, j: nat, r: Request, maximum: nat)
    requires j < |batches|
    ensures batches[..j] + Place(batches[j..], r, maximum) ==
      if CountProvider(batches[j], r.providerId) < maximum then batches[j := batches[j] + [r]]
      else batches[..j + 1] + Place(batches[j + 1..], r, maximum)
  {
    var rest := batches[j..];
    assert rest[0] == batches[j] && rest[1..] == batches[j + 1..];
    assert batches[..j + 1] == batches[..j] + [batches[j]];
  }

  /** The inner loop of `_split_batch`: the request joins the first batch with room, or opens a new one. */
  method PlaceRequest(batches: seq<Batch>, r: Request, maximum: nat) returns (placed: seq<Batch>)
    ensures placed == Place(batches, r, maximum)
  {
    for j := 0 to |batches|
      invariant Place(batches, r, maximum) == batches[..j] + Place(batches[j..], r, maximum)
    {
      PlaceNext(batches, j, r, maximum);
      if CountProvider(batches[j], r.providerId) < maximum {
        return batches[j := batches[j] + [r]];
      }
    }
    placed := batches + [[r]];
  }

  method SplitRequests(requests: seq<Request>, maximum: nat) returns (batches: seq<Batch>)
    ensures batches == SplitBatch(requests, maximum)
  {
    batches := [];
    for i := 0 to |requests|
      invariant batches == SplitBatch(requests[..i], maximum)
    {
      assert requests[..i + 1][..i] == requests[..i];
      batches := PlaceRequest(batches, requests[i], maximum);
    }
    assert requests[..|requests|] == requests;
  }

  method CompileBatches(plan: Plan, policy: Policy, results: Results) returns (batches: seq<Batch>)
    ensures batches == Compile(plan, policy, results)
  {
    var ready := SelectReady(plan, results);
    batches := SplitRequests(RequestsFor(ready, policy), policy.maximumPerProvider);
  }
}

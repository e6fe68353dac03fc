/** Kahn's algorithm with an alphabetical ready queue, refined to `Graphs.Order`. */
module KahnSort {
  import opened Collections
  import opened Sorting
  import opened Graphs

  type Degrees = map<string, int>
  type Successors = map<string, set<string>>

  ghost function Preds(nodes: set<string>, edges: Edges, n: string): set<string> {
    set m | m in nodes && (m, n) in edges
  }

  ghost predicate CountsPreds(inDegree: Degrees, nodes: set<string>, edges: Edges, n: string)
    requires n in inDegree
  {
    inDegree[n] == |Preds(nodes, edges, n)|
  }

  /** `adj` lists the successors of every node and `inDegree` counts the predecessors. */
  ghost predicate Tabulates(adj: Successors, inDegree: Degrees, nodes: set<string>, edges: Edges) {
    && adj.Keys == nodes && inDegree.Keys == nodes
    && (forall a, b :: (a, b) in edges <==> a in nodes && b in adj[a])
    && (forall b {:trigger CountsPreds(inDegree, nodes, edges, b)} :: b in nodes ==>
        CountsPreds(inDegree, nodes, edges, b))
  }

  /** One new edge: the test for presence, the insertion and the counter. */
  method Link(adj: Successors, inDegree: Degrees, a: string, b: string, ghost nodes: set<string>, ghost edges: Edges)
    returns (adj': Successors, inDegree': Degrees)
    requires Tabulates(adj, inDegree, nodes, edges) && a in nodes && b in nodes
    ensures Tabulates(adj', inDegree', nodes, edges + {(a, b)})
  {
    adj', inDegree' := adj, inDegree;
    ghost var grown := edges + {(a, b)};
    if b !in adj[a] {
      adj' := adj'[a := adj'[a] + {b}];
      inDegree' := inDegree'[b := inDegree'[b] + 1];
      assert Preds(nodes, grown, b) == Preds(nodes, edges, b) + {a};
    } else {
      assert grown == edges;
    }
    assert CountsPreds(inDegree, nodes, edges, b);
    forall c | c in nodes ensures CountsPreds(inDegree', nodes, grown, c) {
      assert CountsPreds(inDegree, nodes, edges, c);
      if c != b {
        assert Preds(nodes, grown, c) == Preds(nodes, edges, c);
      }
    }
  }

  /** Entries of `successors` whose counter is about to reach zero. */
  function Released(successors: seq<string>, inDegree: Degrees): (r: seq<string>)
    requires forall v :: v in successors ==> v in inDegree
    ensures forall v :: v in r <==> v in successors && inDegree[v] == 1
    ensures Distinct(successors) ==> Distinct(r)
  {
    if successors == [] then []
    else
      var last := |successors| - 1;
      assert successors == successors[..last] + [successors[last]];
      Released(successors[..last], inDegree) + (if inDegree[successors[last]] == 1 then [successors[last]] else [])
  }

  /** The counters once every id of `done` has lost a predecessor. */
  ghost function Lowered(inDegree: Degrees, done: set<string>): Degrees {
    map v | v in inDegree :: inDegree[v] - if v in done then 1 else 0
  }

  ghost predicate Covers(inDegree: Degrees, successors: seq<string>) {
    Distinct(successors) && forall v :: v in successors ==> v in inDegree
  }

  /** Counters and queue after the first `i` successors. */
  ghost predicate Lowering(successors: seq<string>, inDegree: Degrees, queue: seq<string>, i: nat, inDegree': Degrees,
      queue': seq<string>)
    requires Covers(inDegree, successors) && i <= |successors|
  {
    inDegree' == Lowered(inDegree, ToSet(successors[..i])) && queue' == queue + Released(successors[..i], inDegree)
  }

  lemma NextLowering(successors: seq<string>, inDegree: Degrees, queue: seq<string>, i: nat, inDegree': Degrees,
      queue': seq<string>)
    requires Covers(inDegree, successors) && i < |successors|
    requires Lowering(successors, inDegree, queue, i, inDegree', queue')
    ensures var v := successors[i];
      && v in inDegree'
      && var lower := inDegree'[v := inDegree'[v] - 1];
        Lowering(successors, inDegree, queue, i + 1, lower, if lower[v] == 0 then queue' + [v] else queue')
  {
    var v := successors[i];
    assert successors[..i + 1] == successors[..i] + [v];
    assert successors[..i + 1][..i] == successors[..i];
    assert ToSet(successors[..i + 1]) == ToSet(successors[..i]) + {v};
    assert v !in ToSet(successors[..i]);
  }

  /** The inner loop: every successor loses a predecessor and joins the queue when it was the last one. */
  method Decrement(successors: seq<string>, inDegree: Degrees, queue: seq<string>)
      returns (inDegree': Degrees, queue': seq<string>)
    requires Covers(inDegree, successors)
    ensures inDegree' == Lowered(inDegree, ToSet(successors))
    ensures queue' == queue + Released(successors, inDegree)
  {
    inDegree', queue' := inDegree, queue;
    for i := 0 to |successors|
      invariant Lowering(successors, inDegree, queue, i, inDegree', queue')
    {
      NextLowering(successors, inDegree, queue, i, inDegree', queue');
      var v := successors[i];
      inDegree' := inDegree'[v := inDegree'[v] - 1];
      if inDegree'[v] == 0 {
        queue' := queue' + [v];
      }
    }
    assert successors[..|successors|] == successors;
  }

  /** Between rounds: counters count unplaced predecessors, the queue holds the ready ids in order. */
  ghost predicate Frontier(inDegree: Degrees, queue: seq<string>, left: set<string>, nodes: set<string>, edges: Edges) {
    && inDegree.Keys == nodes && left <= nodes
    && (forall v :: v in nodes ==> inDegree[v] == |Preds(left, edges, v)|)
    && (forall v :: v in nodes && v !in left ==> inDegree[v] == 0)
    && Sorted(queue, StrLe) && Distinct(queue) && ToSet(queue) == Ready(left, edges)
  }

  lemma ReadyIffNoPreds(left: set<string>, edges: Edges, v: string)
    requires v in left
    ensures v in Ready(left, edges) <==> |Preds(left, edges, v)| == 0
  {
    if Preds(left, edges, v) == {} {
      assert forall m :: m in left ==> m !in Preds(left, edges, v);
    } else {
      var m :| m in Preds(left, edges, v);
    }
  }

  lemma HeadIsLeast(queue: seq<string>, ready: set<string>)
    requires queue != [] && Sorted(queue, StrLe) && ToSet(queue) == ready
    ensures ready != {} && queue[0] == Least(ready)
  {
    StrLeIsTotalOrder();
    assert queue[0] in ToSet(queue);
    var i :| 0 <= i < |queue| && queue[i] == Least(ready);
    assert i > 0 ==> StrLe(queue[0], queue[i]);
  }

  lemma PredsShrink(left: set<string>, edges: Edges, u: string, v: string)
    requires u in left
    ensures |Preds(left - {u}, edges, v)| == |Preds(left, edges, v)| - if (u, v) in edges then 1 else 0
  {
    if (u, v) in edges {
      assert Preds(left - {u}, edges, v) == Preds(left, edges, v) - {u};
    } else {
      assert Preds(left - {u}, edges, v) == Preds(left, edges, v);
    }
  }

  /** One round of the outer loop keeps the frontier. */
  lemma RoundKeepsFrontier(inDegree: Degrees, queue: seq<string>, left: set<string>, nodes: set<string>, edges: Edges,
      successors: seq<string>, inDegree': Degrees, queue': seq<string>)
    requires Within(nodes, edges) && (forall a :: (a, a) !in edges)
    requires Frontier(inDegree, queue, left, nodes, edges) && queue != []
    requires Distinct(successors) && forall v :: v in successors <==> (queue[0], v) in edges
    requires inDegree'.Keys == inDegree.Keys
    requires forall v :: v in inDegree ==> inDegree'[v] == inDegree[v] - if v in successors then 1 else 0
    requires queue' == queue[1..] + Released(successors, inDegree)
    ensures Frontier(inDegree', Sort(queue', StrLe), left - {queue[0]}, nodes, edges)
  {
    var u := queue[0];
    var left' := left - {u};
    assert u in ToSet(queue);
    forall v | v in nodes ensures inDegree'[v] == |Preds(left', edges, v)| {
      PredsShrink(left, edges, u, v);
    }
    forall v | v in nodes && v !in left' ensures inDegree'[v] == 0 {
      ReadyIffNoPreds(left, edges, u);
    }
    forall v ensures v in queue' <==> v in Ready(left', edges) {
      QueueMembership(inDegree, queue, left, nodes, edges, successors, inDegree', v);
      assert queue == [u] + queue[1..];
      assert v in queue <==> v in ToSet(queue);
      if v in left' {
        ReadyIffNoPreds(left', edges, v);
        ReadyIffNoPreds(left, edges, v);
      }
    }
    QueueDistinct(queue, successors, inDegree, left, nodes, edges);
    StrLeIsTotalOrder();
    SortSorts(queue', StrLe);
    SortKeepsMembers(queue');
  }

  lemma QueueMembership(inDegree: Degrees, queue: seq<string>, left: set<string>, nodes: set<string>, edges: Edges,
      successors: seq<string>, inDegree': Degrees, v: string)
    requires Within(nodes, edges) && (forall a :: (a, a) !in edges)
    requires Frontier(inDegree, queue, left, nodes, edges) && queue != []
    requires forall w :: w in successors <==> (queue[0], w) in edges
    requires inDegree'.Keys == inDegree.Keys
    requires forall w :: w in inDegree ==> inDegree'[w] == inDegree[w] - if w in successors then 1 else 0
    ensures v in Released(successors, inDegree) <==> v in left - {queue[0]} && v in successors && inDegree'[v] == 0
  {
    assert queue[0] in ToSet(queue);
    if v in successors {
      assert queue[0] in Preds(left, edges, v);
      if v !in left {
        assert false;
      }
    }
  }

  lemma QueueDistinct(queue: seq<string>, successors: seq<string>, inDegree: Degrees, left: set<string>,
      nodes: set<string>, edges: Edges)
    requires Within(nodes, edges) && Frontier(inDegree, queue, left, nodes, edges) && queue != []
    requires Distinct(successors) && forall v :: v in successors <==> (queue[0], v) in edges
    ensures Distinct(queue[1..] + Released(successors, inDegree))
  {
    var joined := Released(successors, inDegree);
    forall i, j | 0 <= i < |queue| && 0 <= j < |joined| ensures queue[i] != joined[j] {
      assert joined[j] in joined && queue[i] in ToSet(queue) && queue[0] in ToSet(queue);
      assert queue[0] in Preds(left, edges, joined[j]);
    }
  }

  lemma SortKeepsMembers(s: seq<string>)
    ensures ToSet(Sort(s, StrLe)) == ToSet(s)
    ensures Distinct(s) ==> Distinct(Sort(s, StrLe))
  {
    SameMultisetSameElements(s, Sort(s, StrLe));
    if Distinct(s) {
      var r := Sort(s, StrLe);
      forall i, j | 0 <= i < j < |r| ensures r[i] != r[j] {
        if r[i] == r[j] {
          CountedTwice(r, i, j);
          var p, q := TwoPositions(s, r[i]);
        }
      }
    }
  }

  lemma StartFrontier(ids: seq<string>, adj: Successors, inDegree: Degrees, edges: Edges)
    requires Distinct(ids) && Tabulates(adj, inDegree, ToSet(ids), edges)
    ensures Frontier(inDegree, Sort(WithDegree(ids, inDegree, true), StrLe), ToSet(ids), ToSet(ids), edges)
  {
    var nodes := ToSet(ids);
    var queue := WithDegree(ids, inDegree, true);
    assert forall v :: v in nodes ==> inDegree[v] == |Preds(nodes, edges, v)| by {
      forall v | v in nodes ensures inDegree[v] == |Preds(nodes, edges, v)| {
        assert CountsPreds(inDegree, nodes, edges, v);
      }
    }
    StartQueue(ids, inDegree, edges);
    assert Sorted(Sort(queue, StrLe), StrLe) by {
      StrLeIsTotalOrder();
      SortSorts(queue, StrLe);
    }
    SortKeepsMembers(queue);
  }

  /** At the start the ids without predecessors are queued. */
  lemma StartQueue(ids: seq<string>, inDegree: Degrees, edges: Edges)
    requires inDegree.Keys == ToSet(ids)
    requires forall v :: v in ToSet(ids) ==> inDegree[v] == |Preds(ToSet(ids), edges, v)|
    ensures ToSet(WithDegree(ids, inDegree, true)) == Ready(ToSet(ids), edges)
  {
    var nodes, queue := ToSet(ids), WithDegree(ids, inDegree, true);
    forall v ensures v in queue <==> v in Ready(nodes, edges) {
      if v in nodes {
        ReadyIffNoPreds(nodes, edges, v);
      }
    }
  }

  lemma BlockedAreLeft(ids: seq<string>, inDegree: Degrees, left: set<string>, edges: Edges)
    requires Distinct(ids) && Frontier(inDegree, [], left, ToSet(ids), edges)
    ensures Sort(WithDegree(ids, inDegree, false), StrLe) == SortedSet(left)
  {
    var remaining := WithDegree(ids, inDegree, false);
    forall v ensures v in remaining <==> v in left {
      if v in left {
        ReadyIffNoPreds(left, edges, v);
      }
    }
    SortListsSet(remaining, left);
  }

  /** Moving the least ready id from the rest to the placed ids. */
  lemma OrderStep(left: set<string>, edges: Edges, order: seq<string>)
    requires Ready(left, edges) != {}
    ensures var u := Least(Ready(left, edges));
      && u in left && order + [u] + Order(left - {u}, edges) == order + Order(left, edges)
      && ToSet(order + [u]) == ToSet(order) + {u}
  {
    var u := Least(Ready(left, edges));
    assert order + ([u] + Order(left - {u}, edges)) == order + [u] + Order(left - {u}, edges);
  }

  lemma NothingReady(inDegree: Degrees, left: set<string>, nodes: set<string>, edges: Edges)
    requires Frontier(inDegree, [], left, nodes, edges)
    ensures Order(left, edges) == []
  {
    assert ToSet<string>([]) == {};
  }

  lemma SuccessorList(adj: Successors, inDegree: Degrees, u: string, nodes: set<string>, edges: Edges)
    requires Within(nodes, edges) && u in nodes && inDegree.Keys == nodes
    requires adj.Keys == nodes && forall a, b :: (a, b) in edges <==> a in nodes && b in adj[a]
    ensures var successors := SortedSet(adj[u]);
      Covers(inDegree, successors) && forall v :: v in successors <==> (u, v) in edges
  {
    var successors := SortedSet(adj[u]);
    forall v ensures v in successors <==> (u, v) in edges {
      assert v in successors <==> v in ToSet(successors);
    }
  }

  lemma LoweredCounters(inDegree: Degrees, successors: seq<string>)
    ensures var lower := Lowered(inDegree, ToSet(successors));
      lower.Keys == inDegree.Keys && forall v :: v in inDegree ==>
        lower[v] == inDegree[v] - if v in successors then 1 else 0
  {
  }

  /** What the outer loop relies on: no self-edge, and `adj` lists the edges. */
  ghost predicate Sortable(adj: Successors, nodes: set<string>, edges: Edges) {
    && Within(nodes, edges) && (forall a :: (a, a) !in edges)
    && adj.Keys == nodes && forall a, b :: (a, b) in edges <==> a in nodes && b in adj[a]
  }

  /** The ids not placed yet. */
  ghost function Left(nodes: set<string>, order: seq<string>): set<string> {
    nodes - ToSet(order)
  }

  lemma AllLeft(nodes: set<string>, edges: Edges)
    ensures Left(nodes, []) == nodes && [] + Order(Left(nodes, []), edges) == Order(nodes, edges)
  {
  }

  /** One turn of the outer loop: pop, record, release the successors, re-sort. */
  method Round(adj: Successors, inDegree: Degrees, queue: seq<string>, order: seq<string>, ghost nodes: set<string>,
      ghost edges: Edges)
    returns (inDegree': Degrees, queue': seq<string>, order': seq<string>)
    requires Sortable(adj, nodes, edges)
    requires Frontier(inDegree, queue, Left(nodes, order), nodes, edges) && queue != []
    ensures |Left(nodes, order')| < |Left(nodes, order)|
    ensures order' + Order(Left(nodes, order'), edges) == order + Order(Left(nodes, order), edges)
    ensures Frontier(inDegree', queue', Left(nodes, order'), nodes, edges)
  {
    var u := queue[0];
    ghost var left := Left(nodes, order);
    HeadIsLeast(queue, Ready(left, edges));
    OrderStep(left, edges, order);
    order' := order + [u];
    assert Left(nodes, order') == left - {u};
    var successors := SortedSet(adj[u]);
    SuccessorList(adj, inDegree, u, nodes, edges);
    LoweredCounters(inDegree, successors);
    inDegree', queue' := Decrement(successors, inDegree, queue[1..]);
    RoundKeepsFrontier(inDegree, queue, left, nodes, edges, successors, inDegree', queue');
    queue' := Sort(queue', StrLe);
  }

  /** The outer loop: runs until nothing is ready. */
  method Drain(adj: Successors, inDegree0: Degrees, queue0: seq<string>, ghost nodes: set<string>, ghost edges: Edges)
    returns (order: seq<string>, inDegree: Degrees)
    requires Sortable(adj, nodes, edges)
    requires Frontier(inDegree0, queue0, nodes, nodes, edges)
    ensures order == Order(nodes, edges)
    ensures Frontier(inDegree, [], nodes - ToSet(order), nodes, edges)
  {
    var queue := queue0;
    inDegree := inDegree0;
    order := [];
    AllLeft(nodes, edges);
    while queue != []
      invariant Frontier(inDegree, queue, Left(nodes, order), nodes, edges)
      invariant order + Order(Left(nodes, order), edges) == Order(nodes, edges)
      decreases |Left(nodes, order)|
    {
      inDegree, queue, order := Round(adj, inDegree, queue, order, nodes, edges);
    }
    NothingReady(inDegree, Left(nodes, order), nodes, edges);
  }

  /** The sort itself: ids in dependency order, and the ids whose counter never reached zero. */
  method Kahn(ids: seq<string>, adj: Successors, inDegree0: Degrees, ghost edges: Edges)
      returns (order: seq<string>, blocked: seq<string>)
    requires Distinct(ids) && Tabulates(adj, inDegree0, ToSet(ids), edges)
    requires Within(ToSet(ids), edges) && forall a :: (a, a) !in edges
    ensures order == Order(ToSet(ids), edges)
    ensures blocked == SortedSet(ToSet(ids) - ToSet(order))
  {
    StartFrontier(ids, adj, inDegree0, edges);
    var inDegree;
    order, inDegree := Drain(adj, inDegree0, Sort(WithDegree(ids, inDegree0, true), StrLe), ToSet(ids), edges);
    BlockedAreLeft(ids, inDegree, ToSet(ids) - ToSet(order), edges);
    blocked := Sort(WithDegree(ids, inDegree, false), StrLe);
  }

  /** `[id for id, deg in inDegree.items() if deg == 0]`, or the ones with `deg > 0`. */
  function WithDegree(ids: seq<string>, inDegree: Degrees, zero: bool): (r: seq<string>)
    requires forall v :: v in ids ==> v in inDegree
    ensures forall v :: v in r <==> v in ids && (if zero then inDegree[v] == 0 else inDegree[v] > 0)
    ensures Distinct(ids) ==> Distinct(r)
  {
    if ids == [] then []
    else
      var last := |ids| - 1;
      assert ids == ids[..last] + [ids[last]];
      var d := inDegree[ids[last]];
      WithDegree(ids[..last], inDegree, zero) + (if (if zero then d == 0 else d > 0) then [ids[last]] else [])
  }
}

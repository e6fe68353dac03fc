/**
  Finite directed graphs over string ids, paths and cycles in them, and the
  deterministic topological order: repeatedly take the alphabetically first id
  with no unplaced predecessor.
 */
module Graphs {
  import opened Collections
  import opened Sorting

  type Edges = set<(string, string)>

  ghost predicate Within(nodes: set<string>, edges: Edges) {
    forall a, b :: (a, b) in edges ==> a in nodes && b in nodes
  }

  /** Members of `nodes` with no predecessor among `nodes`. */
  ghost function Ready(nodes: set<string>, edges: Edges): set<string> {
    set n | n in nodes && forall m :: m in nodes ==> (m, n) !in edges
  }

  /** The order Kahn's algorithm produces with an alphabetical ready queue; it stops when nothing is ready. */
  ghost function Order(nodes: set<string>, edges: Edges): (order: seq<string>)
    ensures Distinct(order) && ToSet(order) <= nodes
    decreases |nodes|
  {
    var ready := Ready(nodes, edges);
    if ready == {} then []
    else
      var u := Least(ready);
      var rest := Order(nodes - {u}, edges);
      assert forall y :: y in rest ==> y in ToSet(rest);
      [u] + rest
  }

  // ---------------------------------------------------------------- paths and cycles

  ghost predicate Step(p: seq<string>, edges: Edges, i: int)
    requires 0 <= i < |p| - 1
  {
    (p[i], p[i + 1]) in edges
  }

  ghost predicate IsPath(p: seq<string>, edges: Edges) {
    |p| >= 1 && forall i :: 0 <= i < |p| - 1 ==> Step(p, edges, i)
  }

  ghost predicate IsCycle(p: seq<string>, edges: Edges) {
    IsPath(p, edges) && |p| >= 2 && p[0] == p[|p| - 1]
  }

  ghost predicate Acyclic(edges: Edges) {
    forall p :: !IsCycle(p, edges)
  }

  /** `n` lies on a cycle or can be reached from one. */
  ghost predicate Tainted(n: string, edges: Edges) {
    exists c, p :: IsCycle(c, edges) && IsPath(p, edges) && p[0] == c[0] && p[|p| - 1] == n
  }

  ghost predicate Topological(order: seq<string>, nodes: set<string>, edges: Edges) {
    && Distinct(order) && ToSet(order) == nodes
    && forall i, j :: 0 <= i < |order| && 0 <= j < |order| && (order[i], order[j]) in edges ==> i < j
  }

  /** Lexicographic order on lists of ids. */
  predicate ListLe(a: seq<string>, b: seq<string>) {
    a == [] || (b != [] && (StrLess(a[0], b[0]) || (a[0] == b[0] && ListLe(a[1..], b[1..]))))
  }

  /** A stretch of a path is a path. */
  lemma SubPath(p: seq<string>, edges: Edges, i: nat, j: nat) returns (q: seq<string>)
    requires IsPath(p, edges) && i < j <= |p|
    ensures IsPath(q, edges) && |q| == j - i && q[0] == p[i] && q[|q| - 1] == p[j - 1]
  {
    q := p[i..j];
    forall k | 0 <= k < |q| - 1 ensures Step(q, edges, k) {
      assert Step(p, edges, i + k);
    }
  }

  // ---------------------------------------------------------------- what Order places

  lemma HeadJoins(u: string, rest: seq<string>)
    ensures ToSet([u] + rest) == {u} + ToSet(rest)
  {
  }

  /** Whatever Order leaves out, each such id has a predecessor that is left out too. */
  lemma {:induction false} LeftoversBlocked(nodes: set<string>, edges: Edges)
    ensures Ready(nodes - ToSet(Order(nodes, edges)), edges) == {}
    decreases |nodes|
  {
    var ready := Ready(nodes, edges);
    if ready == {} {
      assert nodes - ToSet(Order(nodes, edges)) == nodes;
    } else {
      var u := Least(ready);
      LeftoversBlocked(nodes - {u}, edges);
      var rest := Order(nodes - {u}, edges);
      HeadJoins(u, rest);
      assert Order(nodes, edges) == [u] + rest;
      assert nodes - ({u} + ToSet(rest)) == nodes - {u} - ToSet(rest);
    }
  }

  /** A placed id comes after every one of its predecessors, all of which are placed. */
  lemma {:induction false} PredecessorsFirst(nodes: set<string>, edges: Edges, a: string, j: nat)
    requires j < |Order(nodes, edges)| && a in nodes && (a, Order(nodes, edges)[j]) in edges
    ensures exists i :: 0 <= i < j && Order(nodes, edges)[i] == a
    decreases |nodes|
  {
    var u := Least(Ready(nodes, edges));
    var order := Order(nodes, edges);
    var rest := Order(nodes - {u}, edges);
    assert order == [u] + rest;
    if j > 0 {
      if a == u {
        assert order[0] == a;
      } else {
        PredecessorsFirst(nodes - {u}, edges, a, j - 1);
        var i :| 0 <= i < j - 1 && rest[i] == a;
        assert order[i + 1] == a;
      }
    }
  }

  /** Walking along a path that ends at a placed id, positions only grow. */
  lemma {:induction false} PathPlaced(nodes: set<string>, edges: Edges, p: seq<string>, j: nat) returns (i: nat)
    requires Within(nodes, edges) && IsPath(p, edges)
    requires j < |Order(nodes, edges)| && Order(nodes, edges)[j] == p[|p| - 1]
    ensures i < |Order(nodes, edges)| && Order(nodes, edges)[i] == p[0]
    ensures i <= j && (|p| >= 2 ==> i < j)
    decreases |p|
  {
    i := j;
    if |p| >= 2 {
      var k := |p| - 2;
      assert Step(p, edges, k);
      var q := SubPath(p, edges, 0, |p| - 1);
      PredecessorsFirst(nodes, edges, p[k], j);
      var j' :| 0 <= j' < j && Order(nodes, edges)[j'] == p[k];
      i := PathPlaced(nodes, edges, q, j');
    }
  }

  lemma PlacedNotTainted(nodes: set<string>, edges: Edges, n: string)
    requires Within(nodes, edges) && n in ToSet(Order(nodes, edges))
    ensures !Tainted(n, edges)
  {
    if Tainted(n, edges) {
      var c, p :| IsCycle(c, edges) && IsPath(p, edges) && p[0] == c[0] && p[|p| - 1] == n;
      var order := Order(nodes, edges);
      var j :| 0 <= j < |order| && order[j] == n;
      var i := PathPlaced(nodes, edges, p, j);
      var h := PathPlaced(nodes, edges, c, i);
    }
  }

  /** In a set where nothing is ready one can walk backwards forever. */
  lemma {:induction false} WalkBack(stuck: set<string>, edges: Edges, n: string, steps: nat) returns (p: seq<string>)
    requires n in stuck && Ready(stuck, edges) == {}
    ensures |p| == steps + 1 && IsPath(p, edges) && p[steps] == n
    ensures forall x :: x in p ==> x in stuck
    decreases steps
  {
    if steps == 0 {
      p := [n];
    } else {
      assert n !in Ready(stuck, edges);
      var m :| m in stuck && (m, n) in edges;
      var q := WalkBack(stuck, edges, m, steps - 1);
      p := q + [n];
      forall i | 0 <= i < |p| - 1 ensures Step(p, edges, i) {
        assert i < |q| - 1 ==> Step(q, edges, i);
      }
    }
  }

  lemma CycleTaints(c: seq<string>, edges: Edges)
    requires IsCycle(c, edges)
    ensures Tainted(c[0], edges)
  {
    var here := [c[0]];
    assert IsPath(here, edges) && here[0] == c[0] && here[|here| - 1] == c[0];
  }

  /** A path that repeats an id contains a cycle, and leads from it to its end. */
  lemma RepeatTaints(p: seq<string>, edges: Edges, i: nat, j: nat)
    requires IsPath(p, edges) && i < j < |p| && p[i] == p[j]
    ensures Tainted(p[|p| - 1], edges)
  {
    var cycle := SubPath(p, edges, i, j + 1);
    var rest := SubPath(p, edges, i, |p|);
    assert IsCycle(cycle, edges) && IsPath(rest, edges) && rest[0] == cycle[0] && rest[|rest| - 1] == p[|p| - 1];
  }

  lemma StuckTainted(stuck: set<string>, edges: Edges, n: string)
    requires n in stuck && Ready(stuck, edges) == {}
    ensures Tainted(n, edges)
  {
    var p := WalkBack(stuck, edges, n, |stuck|);
    var i, j := Pigeonhole(p, stuck);
    RepeatTaints(p, edges, i, j);
  }

  /** Exactly the ids on a cycle, or downstream of one, are left out of the order. */
  lemma LeftoversAreTainted(nodes: set<string>, edges: Edges, n: string)
    requires Within(nodes, edges) && n in nodes
    ensures n !in ToSet(Order(nodes, edges)) <==> Tainted(n, edges)
  {
    if n in ToSet(Order(nodes, edges)) {
      PlacedNotTainted(nodes, edges, n);
    } else {
      LeftoversBlocked(nodes, edges);
      StuckTainted(nodes - ToSet(Order(nodes, edges)), edges, n);
    }
  }

  /** The order is complete if and only if there is no cycle. */
  lemma CompleteIffAcyclic(nodes: set<string>, edges: Edges)
    requires Within(nodes, edges)
    ensures |Order(nodes, edges)| == |nodes| <==> Acyclic(edges)
    ensures |Order(nodes, edges)| == |nodes| <==> ToSet(Order(nodes, edges)) == nodes
  {
    var placed := ToSet(Order(nodes, edges));
    DistinctCardinality(Order(nodes, edges));
    SubsetCardinality(placed, nodes);
    if placed == nodes {
      forall c ensures !IsCycle(c, edges) {
        if IsCycle(c, edges) {
          CycleTaints(c, edges);
          assert Step(c, edges, 0);
          PlacedNotTainted(nodes, edges, c[0]);
        }
      }
    } else {
      var n :| n in nodes && n !in placed;
      LeftoversAreTainted(nodes, edges, n);
    }
  }

  lemma CompleteIsTopological(nodes: set<string>, edges: Edges)
    requires ToSet(Order(nodes, edges)) == nodes
    ensures Topological(Order(nodes, edges), nodes, edges)
  {
    var order := Order(nodes, edges);
    forall i, j | 0 <= i < |order| && 0 <= j < |order| && (order[i], order[j]) in edges ensures i < j {
      assert order[i] in ToSet(order);
      PredecessorsFirst(nodes, edges, order[i], j);
      var k :| 0 <= k < j && order[k] == order[i];
    }
  }

  /** At step `i` the id is not placed yet, and all its predecessors are. */
  ghost predicate Waiting(order: seq<string>, nodes: set<string>, edges: Edges, i: nat, id: string) {
    && i < |order| && id in nodes && id !in order[..i]
    && forall p :: p in nodes && (p, id) in edges ==> p in order[..i]
  }

  /** No waiting id precedes, by code point, the id placed next. */
  lemma {:induction false} PlacesTheFirst(nodes: set<string>, edges: Edges, i: nat, id: string)
    requires Waiting(Order(nodes, edges), nodes, edges, i, id)
    ensures !ByCodePoint(id, Order(nodes, edges)[i])
    decreases |nodes|
  {
    var u := Least(Ready(nodes, edges));
    var order, rest := Order(nodes, edges), Order(nodes - {u}, edges);
    assert order == [u] + rest;
    if i == 0 {
      assert id in Ready(nodes, edges);
      StrLessMeans(id, u);
      LessChain(id, u, id);
    } else {
      assert order[..i] == [u] + rest[..i - 1];
      PlacesTheFirst(nodes - {u}, edges, i - 1, id);
    }
  }

  /** Order is the lexicographically least of all topological orders. */
  lemma {:induction false} LexicographicallyLeast(nodes: set<string>, edges: Edges, other: seq<string>)
    requires Topological(other, nodes, edges)
    ensures ListLe(Order(nodes, edges), other)
    decreases |nodes|
  {
    var ready := Ready(nodes, edges);
    if ready != {} {
      var u := Least(ready);
      assert u in ToSet(other);
      var first := other[0];
      forall m | m in nodes ensures (m, first) !in edges {
        assert m in ToSet(other);
        var i :| 0 <= i < |other| && other[i] == m;
        assert (other[i], other[0]) in edges ==> i < 0;
      }
      assert first in ToSet(other) && first in ready;
      if u == first {
        TopologicalTail(nodes, edges, other);
        LexicographicallyLeast(nodes - {u}, edges, other[1..]);
      }
    }
  }

  /** Every predecessor of `n` stands before position `j`. */
  ghost predicate PredecessorsBefore(order: seq<string>, edges: Edges, n: string, j: int) {
    forall p :: (p, n) in edges ==> exists i :: 0 <= i < j && i < |order| && order[i] == p
  }

  lemma EmptyIsLeast(ready: set<string>)
    requires "" in ready
    ensures Least(ready) == ""
  {
    assert StrLe(Least(ready), "");
  }

  /** The empty id sorts first, so it is placed before another id exactly when all its predecessors are. */
  lemma {:induction false} EmptyIdPlace(nodes: set<string>, edges: Edges, k: nat, j: nat)
    requires Within(nodes, edges) && k < |Order(nodes, edges)| && j < |Order(nodes, edges)| && k != j
    requires Order(nodes, edges)[k] == ""
    ensures k < j <==> PredecessorsBefore(Order(nodes, edges), edges, "", j)
  {
    var order := Order(nodes, edges);
    if k < j {
      forall p | (p, "") in edges ensures exists i :: 0 <= i < j && i < |order| && order[i] == p {
        PredecessorsFirst(nodes, edges, p, k);
      }
    } else if PredecessorsBefore(order, edges, "", j) {
      EmptyIdNotLater(nodes, edges, k, j);
    }
  }

  /** If its unplaced predecessors all stand before position `j`, the empty id does not stand after it. */
  lemma {:induction false} EmptyIdNotLater(nodes: set<string>, edges: Edges, k: nat, j: nat)
    requires k < |Order(nodes, edges)| && j < |Order(nodes, edges)| && Order(nodes, edges)[k] == ""
    requires forall p :: p in nodes && (p, "") in edges ==> p in Order(nodes, edges)[..j]
    ensures k <= j
    decreases |nodes|
  {
    var u := Least(Ready(nodes, edges));
    var order, rest := Order(nodes, edges), Order(nodes - {u}, edges);
    assert order == [u] + rest;
    assert "" in ToSet(order);
    if j == 0 {
      assert "" in Ready(nodes, edges);
      EmptyIsLeast(Ready(nodes, edges));
      EmptyOnce(order, k);
    } else if k > 0 {
      assert order[..j] == [u] + rest[..j - 1];
      EmptyIdNotLater(nodes - {u}, edges, k - 1, j - 1);
    }
  }

  lemma EmptyOnce(order: seq<string>, k: nat)
    requires Distinct(order) && k < |order| && order[0] == "" && order[k] == ""
    ensures k == 0
  {
  }

  lemma TopologicalTail(nodes: set<string>, edges: Edges, other: seq<string>)
    requires Topological(other, nodes, edges) && other != []
    ensures Topological(other[1..], nodes - {other[0]}, edges)
  {
    var tail := other[1..];
    assert other == [other[0]] + tail;
    forall x ensures x in ToSet(tail) <==> x in nodes - {other[0]} {
      assert x in nodes <==> x in ToSet(other);
    }
    forall i, j | 0 <= i < |tail| && 0 <= j < |tail| && (tail[i], tail[j]) in edges ensures i < j {
      assert (other[i + 1], other[j + 1]) in edges;
    }
  }

  lemma {:induction false} ListLeAntisymmetric(a: seq<string>, b: seq<string>)
    requires ListLe(a, b) && ListLe(b, a)
    ensures a == b
  {
    if a != [] {
      StrLeIsTotalOrder();
      assert StrLe(a[0], b[0]) && StrLe(b[0], a[0]);
      StrLessIrreflexive(a[0]);
      ListLeAntisymmetric(a[1..], b[1..]);
      assert a == [a[0]] + a[1..] && b == [b[0]] + b[1..];
    }
  }
}

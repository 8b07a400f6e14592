/**
 Directed graphs as successor lists, and the queue that drains nodes whose
 incoming count has reached zero. Both the dependency scheduler and the process
 graph validator decide acyclicity this way.
 */
module Graphs {
  type Successors = seq<seq<nat>>

  ghost predicate Distinct(s: seq<nat>) {
    forall i, j :: 0 <= i < j < |s| ==> s[i] != s[j]
  }

  function Elements(s: seq<nat>): (r: set<nat>) {
    set x | x in s
  }

  /** The nodes of a graph of size `n`. */
  function Nodes(n: nat): (r: set<nat>)
    ensures forall v: nat :: v in r <==> v < n
    ensures |r| == n
  {
    if n == 0 then {} else Nodes(n - 1) + {n - 1}
  }

  /** Edges stay inside the graph and none is listed twice. */
  ghost predicate Simple(succ: Successors) {
    && (forall u, j :: 0 <= u < |succ| && 0 <= j < |succ[u]| ==> succ[u][j] < |succ|)
    && (forall u :: 0 <= u < |succ| ==> Distinct(succ[u]))
  }

  /** The nodes with an edge to `v`. */
  function Preds(succ: Successors, v: nat): (r: set<nat>) {
    set u: nat | u < |succ| && v in succ[u]
  }

  /** A sequence of nodes joined by edges. */
  ghost predicate Walk(succ: Successors, p: seq<nat>) {
    && p != []
    && (forall i :: 0 <= i < |p| ==> p[i] < |succ|)
    && (forall i :: 0 < i < |p| ==> p[i - 1] in Preds(succ, p[i]))
  }

  ghost predicate Cycle(succ: Successors, p: seq<nat>) {
    Walk(succ, p) && |p| >= 2 && p[0] == p[|p| - 1]
  }

  ghost predicate Acyclic(succ: Successors) {
    forall p :: !Cycle(succ, p)
  }

  /** Distinct nodes, each after all its predecessors. */
  ghost predicate Topological(succ: Successors, order: seq<nat>) {
    && Distinct(order)
    && Elements(order) <= Nodes(|succ|)
    && (forall i :: 0 <= i < |order| ==> Preds(succ, order[i]) <= Elements(order[..i]))
  }

  lemma {:induction false} ElementsSize(s: seq<nat>)
    requires Distinct(s)
    ensures |Elements(s)| == |s|
  {
    if s != [] {
      var last := s[|s| - 1];
      ElementsSize(s[..|s| - 1]);
      assert Elements(s) == Elements(s[..|s| - 1]) + {last};
    }
  }

  lemma SubsetSize(a: set<nat>, b: set<nat>)
    requires a <= b
    ensures |a| <= |b|
    ensures |a| == |b| ==> a == b
  {
    assert b == a + (b - a);
  }

  /** Distinct nodes are at most all the nodes, and as many only if they are all of them. */
  lemma OrderSize(s: seq<nat>, n: nat)
    requires Distinct(s) && Elements(s) <= Nodes(n)
    ensures |s| <= n
    ensures |s| == n <==> Elements(s) == Nodes(n)
  {
    ElementsSize(s);
    SubsetSize(Elements(s), Nodes(n));
  }

  /** Along a walk through a topological order, positions only grow. */
  lemma {:induction false} WalkAscends(succ: Successors, order: seq<nat>, p: seq<nat>) returns (i: nat, j: nat)
    requires Topological(succ, order) && Walk(succ, p) && |p| >= 2 && p[|p| - 1] in order
    ensures i < j < |order| && order[i] == p[0] && order[j] == p[|p| - 1]
  {
    j :| 0 <= j < |order| && order[j] == p[|p| - 1];
    var before := p[|p| - 2];
    assert before in Preds(succ, order[j]);
    assert before in Elements(order[..j]);
    if |p| == 2 {
      i :| 0 <= i < j && order[i] == before;
    } else {
      var k :| 0 <= k < j && order[k] == before;
      var k';
      i, k' := WalkAscends(succ, order, p[..|p| - 1]);
      assert k' == k;
    }
  }

  /** A topological order of all nodes rules cycles out. */
  lemma OrderIsAcyclic(succ: Successors, order: seq<nat>)
    requires Topological(succ, order) && Elements(order) == Nodes(|succ|)
    ensures Acyclic(succ)
  {
    forall p ensures !Cycle(succ, p) {
      if Cycle(succ, p) {
        assert p[|p| - 1] in Nodes(|succ|);
        var i, j := WalkAscends(succ, order, p);
      }
    }
  }

  /** Every node of the set has a predecessor inside the set. */
  ghost predicate Trap(succ: Successors, trap: set<nat>) {
    trap <= Nodes(|succ|) && forall v :: v in trap ==> Preds(succ, v) * trap != {}
  }

  lemma {:induction false} LongWalk(succ: Successors, trap: set<nat>, length: nat) returns (p: seq<nat>)
    requires trap != {} && length >= 1 && Trap(succ, trap)
    ensures Walk(succ, p) && |p| == length && p[0] in trap
  {
    if length == 1 {
      var v :| v in trap;
      p := [v];
    } else {
      var rest := LongWalk(succ, trap, length - 1);
      var u :| u in Preds(succ, rest[0]) * trap;
      p := [u] + rest;
    }
  }

  /** A walk longer than the graph revisits a node. */
  lemma LongWalkCycles(succ: Successors, p: seq<nat>) returns (cycle: seq<nat>)
    requires Walk(succ, p) && |p| > |succ|
    ensures Cycle(succ, cycle)
  {
    if Distinct(p) {
      OrderSize(p, |succ|);
    }
    var i, j :| 0 <= i < j < |p| && p[i] == p[j];
    cycle := p[i..j + 1];
    forall k | 0 < k < |cycle| ensures cycle[k - 1] in Preds(succ, cycle[k]) {
      assert p[i + k - 1] in Preds(succ, p[i + k]);
    }
  }

  /** A graph without cycles has no nonempty trap. */
  lemma NoTrap(succ: Successors, trap: set<nat>)
    requires Acyclic(succ) && Trap(succ, trap)
    ensures trap == {}
  {
    if trap != {} {
      var p := LongWalk(succ, trap, |succ| + 1);
      var cycle := LongWalkCycles(succ, p);
    }
  }

  /** What stops the queue: everything left waits for something left. */
  ghost predicate Stuck(succ: Successors, done: set<nat>) {
    Trap(succ, Nodes(|succ|) - done)
  }

  lemma DifferenceEmpty(a: set<nat>, b: set<nat>)
    ensures a - b == {} <==> a <= b
  {
    forall x | x in a && x !in b ensures x in a - b {
    }
    assert a - b == {} ==> forall x :: x in a && x !in b ==> x in a - b;
  }

  /** A stuck topological order is complete exactly when the graph has no cycle. */
  lemma StuckDecides(succ: Successors, order: seq<nat>)
    requires Topological(succ, order) && Stuck(succ, Elements(order))
    ensures |order| <= |succ|
    ensures |order| == |succ| <==> Acyclic(succ)
    ensures |order| == |succ| <==> Elements(order) == Nodes(|succ|)
  {
    OrderSize(order, |succ|);
    if |order| == |succ| {
      OrderIsAcyclic(succ, order);
    } else if Acyclic(succ) {
      NoTrap(succ, Nodes(|succ|) - Elements(order));
      DifferenceEmpty(Nodes(|succ|), Elements(order));
    }
  }

  /** `incoming[v]` counts the predecessors of `v` outside `done`. */
  ghost predicate Counts(succ: Successors, incoming: seq<nat>, done: set<nat>) {
    |incoming| == |succ| && forall v :: 0 <= v < |succ| ==> incoming[v] == |Preds(succ, v) - done|
  }

  /** The nodes seen so far, each once, are exactly those whose count is zero. */
  ghost predicate Seen(incoming: seq<nat>, seen: set<nat>, ready: seq<nat>) {
    && Distinct(ready) && Elements(ready) <= seen
    && seen <= Nodes(|incoming|)
    && forall v :: 0 <= v < |incoming| ==> (incoming[v] == 0 <==> v in seen)
  }

  /** The queue invariant between two nodes. */
  ghost predicate Draining(succ: Successors, incoming: seq<nat>, order: seq<nat>, ready: seq<nat>) {
    && Topological(succ, order)
    && Counts(succ, incoming, Elements(order))
    && Queued(incoming, Elements(order), ready)
  }

  /** While `index`, just popped, has handed out its edges to `given`. */
  ghost predicate Releasing(succ: Successors, incoming: seq<nat>, done: set<nat>, index: nat, given: set<nat>) {
    && |incoming| == |succ|
    && forall v :: 0 <= v < |succ| ==>
         incoming[v] == |Preds(succ, v) - done - (if v in given then {index} else {})|
  }

  lemma ReleaseStep(succ: Successors, incoming: seq<nat>, done: set<nat>, index: nat, given: set<nat>, v: nat)
    requires Releasing(succ, incoming, done, index, given)
    requires v < |succ| && index in Preds(succ, v) && index !in done && v !in given
    ensures incoming[v] >= 1
    ensures Releasing(succ, incoming[v := incoming[v] - 1], done, index, given + {v})
  {
    var left := Preds(succ, v) - done;
    assert left - {} == left;
    assert index in left;
    assert |left - {index}| == |left| - 1;
  }

  lemma ReleaseStart(succ: Successors, incoming: seq<nat>, done: set<nat>, index: nat)
    requires index < |succ| && Counts(succ, incoming, done)
    ensures Releasing(succ, incoming, done, index, Elements(succ[index][..0]))
  {
    assert Elements(succ[index][..0]) == {};
    forall v | 0 <= v < |succ| ensures incoming[v] == |Preds(succ, v) - done - {}| {
      assert Preds(succ, v) - done - {} == Preds(succ, v) - done;
    }
  }

  lemma ReleaseEnd(succ: Successors, incoming: seq<nat>, done: set<nat>, index: nat)
    requires index < |succ| && Releasing(succ, incoming, done, index, Elements(succ[index][..|succ[index]|]))
    ensures Counts(succ, incoming, done + {index})
  {
    assert succ[index][..|succ[index]|] == succ[index];
    forall v | 0 <= v < |succ| ensures incoming[v] == |Preds(succ, v) - (done + {index})| {
      assert Preds(succ, v) - (done + {index})
          == Preds(succ, v) - done - (if v in Elements(succ[index]) then {index} else {});
    }
  }

  lemma TopologicalSnoc(succ: Successors, order: seq<nat>, index: nat)
    requires Topological(succ, order) && index !in Elements(order) && index < |succ|
    requires Preds(succ, index) <= Elements(order)
    ensures Topological(succ, order + [index])
    ensures Elements(order + [index]) == Elements(order) + {index}
  {
    var next := order + [index];
    forall i | 0 <= i < |next| ensures Preds(succ, next[i]) <= Elements(next[..i]) {
      assert next[..i] == order[..i];
      assert order[..|order|] == order;
    }
  }

  /** A node with no predecessor left outside `done` may follow it. */
  lemma ZeroMeansDone(succ: Successors, incoming: seq<nat>, done: set<nat>, v: nat)
    requires Counts(succ, incoming, done) && v < |succ|
    ensures incoming[v] == 0 <==> Preds(succ, v) <= done
  {
    DifferenceEmpty(Preds(succ, v), done);
  }

  lemma DrainedIsStuck(succ: Successors, incoming: seq<nat>, done: set<nat>)
    requires Counts(succ, incoming, done)
    requires forall v :: 0 <= v < |incoming| ==> (incoming[v] == 0 <==> v in done)
    ensures Stuck(succ, done)
  {
    var rest := Nodes(|succ|) - done;
    forall v | v in rest ensures Preds(succ, v) * rest != {} {
      ZeroMeansDone(succ, incoming, done, v);
      var u :| u in Preds(succ, v) && u !in done;
      assert u in Preds(succ, v) * rest;
    }
  }

  /** The state of the queue while the edges of `index` are handed out. */
  ghost predicate Queued(incoming: seq<nat>, done: set<nat>, ready: seq<nat>) {
    done !! Elements(ready) && Seen(incoming, done + Elements(ready), ready)
  }

  lemma QueueSnoc(incoming: seq<nat>, done: set<nat>, ready: seq<nat>, v: nat)
    requires Queued(incoming, done, ready) && v < |incoming| && incoming[v] >= 1
    ensures incoming[v] == 1 ==> Queued(incoming[v := incoming[v] - 1], done, ready + [v])
    ensures incoming[v] > 1 ==> Queued(incoming[v := incoming[v] - 1], done, ready)
  {
    if incoming[v] == 1 {
      assert v !in ready;
      assert Elements(ready + [v]) == Elements(ready) + {v};
      assert done + Elements(ready + [v]) == done + Elements(ready) + {v};
    }
  }

  lemma EdgeSnoc(succ: Successors, index: nat, j: nat)
    requires Simple(succ) && index < |succ| && j < |succ[index]|
    ensures var v := succ[index][j];
      && v < |succ| && index in Preds(succ, v) && v !in Elements(succ[index][..j])
      && Elements(succ[index][..j + 1]) == Elements(succ[index][..j]) + {v}
  {
    assert succ[index][..j + 1] == succ[index][..j] + [succ[index][j]];
  }

  lemma ReleaseEdge(succ: Successors, incoming: seq<nat>, done: set<nat>, index: nat, j: nat, ready: seq<nat>)
    requires Simple(succ) && index < |succ| && index !in done && j < |succ[index]|
    requires Releasing(succ, incoming, done, index, Elements(succ[index][..j]))
    requires Queued(incoming, done + {index}, ready)
    ensures var v := succ[index][j];
      && v < |succ| && incoming[v] >= 1
      && Releasing(succ, incoming[v := incoming[v] - 1], done, index, Elements(succ[index][..j + 1]))
      && Queued(incoming[v := incoming[v] - 1], done + {index}, if incoming[v] == 1 then ready + [v] else ready)
  {
    var v := succ[index][j];
    EdgeSnoc(succ, index, j);
    ReleaseStep(succ, incoming, done, index, Elements(succ[index][..j]), v);
    QueueSnoc(incoming, done + {index}, ready, v);
  }

  /** Hands out the edges of `index`: counts go down, and what reaches zero is queued. */
  method Release(succ: Successors, counts: seq<nat>, ghost done: set<nat>, index: nat, queue: seq<nat>)
    returns (incoming: seq<nat>, ready: seq<nat>)
    requires Simple(succ) && index < |succ| && index !in done && Counts(succ, counts, done)
    requires Queued(counts, done + {index}, queue)
    ensures Counts(succ, incoming, done + {index})
    ensures Queued(incoming, done + {index}, ready)
  {
    incoming, ready := counts, queue;
    ReleaseStart(succ, incoming, done, index);
    for j := 0 to |succ[index]|
      invariant Releasing(succ, incoming, done, index, Elements(succ[index][..j]))
      invariant Queued(incoming, done + {index}, ready)
    {
      var v := succ[index][j];
      ReleaseEdge(succ, incoming, done, index, j, ready);
      ready := if incoming[v] - 1 == 0 then ready + [v] else ready;
      incoming := incoming[v := incoming[v] - 1];
    }
    ReleaseEnd(succ, incoming, done, index);
  }

  /** Pops ready nodes first in, first out, releasing their successors. */
  method Drain(succ: Successors, counts: seq<nat>, first: seq<nat>) returns (order: seq<nat>)
    requires Simple(succ) && Draining(succ, counts, [], first)
    ensures Topological(succ, order) && Stuck(succ, Elements(order))
  {
    order := [];
    var incoming, ready := counts, first;
    while ready != []
      invariant Draining(succ, incoming, order, ready)
      decreases |succ| - |order|
    {
      var index := ready[0];
      PopReady(succ, incoming, order, ready);
      ghost var done := Elements(order);
      incoming, ready := Release(succ, incoming, done, index, ready[1..]);
      TopologicalSnoc(succ, order, index);
      OrderSize(order + [index], |succ|);
      order := order + [index];
    }
    assert Elements(order) + Elements(ready) == Elements(order);
    DrainedIsStuck(succ, incoming, Elements(order));
  }

  lemma HeadApart(ready: seq<nat>)
    requires Distinct(ready) && ready != []
    ensures Distinct(ready[1..]) && ready[0] !in Elements(ready[1..])
    ensures Elements(ready) == {ready[0]} + Elements(ready[1..])
  {
    forall x | x in ready ensures x == ready[0] || x in ready[1..] {
      var i :| 0 <= i < |ready| && ready[i] == x;
      assert i > 0 ==> ready[1..][i - 1] == x;
    }
  }

  lemma PopReady(succ: Successors, incoming: seq<nat>, order: seq<nat>, ready: seq<nat>)
    requires Draining(succ, incoming, order, ready) && ready != []
    ensures ready[0] < |succ| && ready[0] !in Elements(order) && Preds(succ, ready[0]) <= Elements(order)
    ensures Queued(incoming, Elements(order) + {ready[0]}, ready[1..])
  {
    HeadApart(ready);
    var seen, seen' := Elements(order) + Elements(ready), Elements(order) + {ready[0]} + Elements(ready[1..]);
    assert seen == seen';
    assert ready[0] in seen;
    ZeroMeansDone(succ, incoming, Elements(order), ready[0]);
  }

  /** The nodes whose count is already zero, in index order. */
  method InitialReady(succ: Successors, incoming: seq<nat>) returns (ready: seq<nat>)
    requires Counts(succ, incoming, {})
    ensures Draining(succ, incoming, [], ready)
  {
    ready := [];
    for v := 0 to |incoming|
      invariant Distinct(ready)
      invariant forall u: nat :: u in ready <==> u < v && incoming[u] == 0
    {
      if incoming[v] == 0 {
        ready := ready + [v];
      }
    }
    assert Elements([]) == {};
    assert {} + Elements(ready) == Elements(ready);
  }
}

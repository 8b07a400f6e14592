/**
 `execute_dag`: validates a dependency graph, then runs every ready job,
 completing running jobs in an arbitrary order.
 */
module Dag {
  import opened Graphs
  import opened Wrappers

  datatype Completion<R> = Completion(value: R, succeeded: bool)

  /** What a job yields when it ends. */
  datatype TaskResult<R, E> = Finished(completion: Completion<R>) | Failed(error: E) {
    predicate Succeeds() { Finished? && completion.succeeded }
  }

  datatype Outcome<R> = Completed(value: R) | Skipped

  datatype DagError<E> = InvalidGraph | Task(error: E)

  datatype DagResult<R, E> = Ok(outcomes: seq<Outcome<R>>) | Err(error: DagError<E>)

  /** Observable scheduling events: `run` was called for a job, or its future resolved. */
  datatype Event = Started(node: nat) | Ended(node: nat)

  /** For each node, the nodes it waits for. */
  type Dependencies = seq<seq<nat>>

  predicate Increasing(s: seq<nat>) {
    forall i :: 0 < i < |s| ==> s[i - 1] < s[i]
  }

  /** A node's own list is in order, in range and does not name the node. */
  predicate GoodList(deps: Dependencies, v: nat)
    requires v < |deps|
  {
    Increasing(deps[v]) && forall j :: 0 <= j < |deps[v]| ==> deps[v][j] < |deps| && deps[v][j] != v
  }

  /** A closed chain of nodes, each waiting for the one before it. */
  ghost predicate DependencyCycle(deps: Dependencies, p: seq<nat>) {
    && |p| >= 2 && p[0] == p[|p| - 1]
    && (forall i :: 0 <= i < |p| ==> p[i] < |deps|)
    && (forall i :: 0 < i < |p| ==> p[i - 1] in deps[p[i]])
  }

  /** Nonempty, every list well formed, and no job waits for itself through others. */
  ghost predicate ValidGraph(deps: Dependencies) {
    && deps != []
    && (forall v :: 0 <= v < |deps| ==> GoodList(deps, v))
    && (forall p :: !DependencyCycle(deps, p))
  }

  lemma {:induction false} IncreasingApart(s: seq<nat>, i: nat, j: nat)
    requires Increasing(s) && i < j < |s|
    ensures s[i] < s[j]
  {
    if i + 1 < j {
      IncreasingApart(s, i, j - 1);
    }
  }

  lemma IncreasingDistinct(s: seq<nat>)
    requires Increasing(s)
    ensures Distinct(s)
  {
    forall i, j | 0 <= i < j < |s| ensures s[i] != s[j] {
      IncreasingApart(s, i, j);
    }
  }

  /** `lists[u]` names, once each, the nodes below `v` that wait for `u`. */
  ghost predicate ListedBelow(deps: Dependencies, lists: Successors, v: nat) {
    && |lists| == |deps| && v <= |deps|
    && forall u :: 0 <= u < |lists| ==> ListOf(deps, lists[u], u, v)
  }

  ghost predicate ListOf(deps: Dependencies, list: seq<nat>, u: nat, v: nat)
    requires v <= |deps|
  {
    Distinct(list) && forall w: nat :: w in list <==> w < v && u in deps[w]
  }

  /** The reversed lists: `dependents[u]` holds the nodes that wait for `u`. */
  method AddDependents(deps: Dependencies, lists: Successors, v: nat) returns (r: Successors)
    requires v < |deps| && GoodList(deps, v) && ListedBelow(deps, lists, v)
    ensures ListedBelow(deps, r, v + 1)
  {
    IncreasingDistinct(deps[v]);
    r := lists;
    for j := 0 to |deps[v]|
      invariant Extended(lists, r, deps[v][..j], v)
    {
      var u := deps[v][j];
      assert u !in deps[v][..j];
      assert deps[v][..j + 1] == deps[v][..j] + [u];
      r := r[u := r[u] + [v]];
    }
    assert deps[v][..|deps[v]|] == deps[v];
    ExtendedIsListed(deps, lists, r, v);
  }

  /** The lists of the nodes in `named` have grown by `v`, the others are as they were. */
  ghost predicate Extended(lists: Successors, r: Successors, named: seq<nat>, v: nat) {
    && |r| == |lists|
    && forall u :: 0 <= u < |r| ==> r[u] == if u in named then lists[u] + [v] else lists[u]
  }

  lemma ExtendedIsListed(deps: Dependencies, lists: Successors, r: Successors, v: nat)
    requires v < |deps| && ListedBelow(deps, lists, v) && Extended(lists, r, deps[v], v)
    ensures ListedBelow(deps, r, v + 1)
  {
    forall u | 0 <= u < |r| ensures ListOf(deps, r[u], u, v + 1) {
      assert ListOf(deps, lists[u], u, v);
    }
  }

  /** `lists` reverses the dependencies, and `incoming` counts them. */
  ghost predicate Reversed(deps: Dependencies, lists: Successors) {
    && |lists| == |deps| && Simple(lists)
    && forall v :: 0 <= v < |deps| ==> Preds(lists, v) == Elements(deps[v])
  }

  lemma ListedIsReversed(deps: Dependencies, lists: Successors)
    requires forall v :: 0 <= v < |deps| ==> GoodList(deps, v)
    requires ListedBelow(deps, lists, |deps|)
    ensures Reversed(deps, lists)
  {
    forall v | 0 <= v < |deps| ensures Preds(lists, v) == Elements(deps[v]) {
      assert GoodList(deps, v);
      forall u: nat ensures u in Preds(lists, v) <==> u in deps[v] {
        if u < |lists| {
          assert ListOf(deps, lists[u], u, |deps|);
        }
      }
    }
    forall u, j | 0 <= u < |lists| && 0 <= j < |lists[u]| ensures lists[u][j] < |lists| {
      assert ListOf(deps, lists[u], u, |deps|);
      assert lists[u][j] in lists[u];
    }
    forall u | 0 <= u < |lists| ensures Distinct(lists[u]) {
      assert ListOf(deps, lists[u], u, |deps|);
    }
  }

  /** Cycles of the reversed lists are the dependency cycles. */
  lemma SameCycles(deps: Dependencies, lists: Successors)
    requires Reversed(deps, lists)
    ensures Acyclic(lists) <==> forall p :: !DependencyCycle(deps, p)
  {
    forall p ensures Cycle(lists, p) <==> DependencyCycle(deps, p) {
    }
    if Acyclic(lists) {
      forall p ensures !DependencyCycle(deps, p) {
        assert !Cycle(lists, p);
      }
    }
  }

  lemma LengthsCount(deps: Dependencies, lists: Successors, incoming: seq<nat>)
    requires Reversed(deps, lists) && |incoming| == |deps|
    requires forall v :: 0 <= v < |deps| ==> GoodList(deps, v) && incoming[v] == |deps[v]|
    ensures Counts(lists, incoming, {})
  {
    forall v | 0 <= v < |deps| ensures incoming[v] == |Preds(lists, v) - {}| {
      IncreasingDistinct(deps[v]);
      ElementsSize(deps[v]);
      assert Preds(lists, v) - {} == Elements(deps[v]);
    }
  }

  /** `validate`: accepts exactly the valid graphs. */
  method Validate(deps: Dependencies) returns (ok: bool)
    ensures ok <==> ValidGraph(deps)
  {
    if deps == [] {
      return false;
    }
    var incoming: seq<nat> := [];
    var lists: Successors := seq(|deps|, _ => []);
    for v := 0 to |deps|
      invariant forall w :: 0 <= w < v ==> GoodList(deps, w)
      invariant |incoming| == v && forall w :: 0 <= w < v ==> incoming[w] == |deps[w]|
      invariant ListedBelow(deps, lists, v)
    {
      if !(forall j :: 0 < j < |deps[v]| ==> deps[v][j - 1] < deps[v][j])
        || (exists j :: 0 <= j < |deps[v]| && (deps[v][j] >= |deps| || deps[v][j] == v))
      {
        assert !GoodList(deps, v);
        return false;
      }
      incoming := incoming + [|deps[v]|];
      lists := AddDependents(deps, lists, v);
    }
    ListedIsReversed(deps, lists);
    LengthsCount(deps, lists, incoming);
    SameCycles(deps, lists);
    var ready := InitialReady(lists, incoming);
    var visited := Drain(lists, incoming, ready);
    StuckDecides(lists, visited);
    ok := |visited| == |deps|;
  }

  // ---- The specification: which jobs run, and what is returned ----

  /** `ran` is exactly the set of nodes whose dependencies all ran and succeeded. */
  ghost predicate RanSet<R, E>(deps: Dependencies, results: seq<TaskResult<R, E>>, ran: set<nat>) {
    && |results| == |deps| && ran <= Nodes(|deps|)
    && forall v: nat :: v < |deps| ==> (v in ran <==> Elements(deps[v]) <= Good(results, ran))
  }

  /** The nodes of `ran` that succeeded. */
  ghost function Good<R, E>(results: seq<TaskResult<R, E>>, ran: set<nat>): (r: set<nat>) {
    set v | v in ran && v < |results| && results[v].Finished? && results[v].completion.succeeded
  }

  /** The error of the lowest-index node that ran and failed, at or after `v`. */
  ghost function FirstError<R, E>(results: seq<TaskResult<R, E>>, ran: set<nat>, v: nat): (r: Option<E>)
    requires v <= |results|
    decreases |results| - v
  {
    if v == |results| then None
    else if v in ran && results[v].Failed? then Some(results[v].error)
    else FirstError(results, ran, v + 1)
  }

  /** The returned value as a function of the graph, the job results and the nodes that ran. */
  ghost predicate IsAnswer<R, E>(deps: Dependencies, results: seq<TaskResult<R, E>>, ran: set<nat>, r: DagResult<R, E>) {
    && RanSet(deps, results, ran)
    && match FirstError(results, ran, 0)
       case Some(e) => r == Err(Task(e))
       case None =>
         && r.Ok? && |r.outcomes| == |deps|
         && forall v :: 0 <= v < |deps| ==>
              if v in ran then results[v].Finished? && r.outcomes[v] == Completed(results[v].completion.value)
              else r.outcomes[v] == Skipped
  }

  /** A job runs exactly when every job it waits for ran and finished successfully. */
  lemma RanMeans<R, E>(deps: Dependencies, results: seq<TaskResult<R, E>>, ran: set<nat>)
    requires RanSet(deps, results, ran) && forall v :: 0 <= v < |deps| ==> GoodList(deps, v)
    ensures forall v: nat :: v < |deps| ==>
      (v in ran <==> forall d :: d in deps[v] ==> d in ran && results[d].Finished? && results[d].completion.succeeded)
  {
    forall v: nat | v < |deps|
      ensures v in ran <==> forall d :: d in deps[v] ==> d in ran && results[d].Finished? && results[d].completion.succeeded
    {
      assert GoodList(deps, v);
      assert forall d :: d in deps[v] <==> d in Elements(deps[v]);
    }
  }

  /** In a valid graph only one set of nodes can be the one that ran. */
  lemma RanSetUnique<R, E>(deps: Dependencies, lists: Successors, results: seq<TaskResult<R, E>>, a: set<nat>, b: set<nat>)
    requires Reversed(deps, lists) && Acyclic(lists)
    requires RanSet(deps, results, a) && RanSet(deps, results, b)
    ensures a == b
  {
    var trap := (a - b) + (b - a);
    forall v | v in trap ensures Preds(lists, v) * trap != {} {
      var some, other := if v in a then a else b, if v in a then b else a;
      var d :| d in deps[v] && d !in Good(results, other);
      assert d in Elements(deps[v]) && d in Good(results, some);
      assert d in Preds(lists, v) * trap;
    }
    NoTrap(lists, trap);
    assert a - b == {} && b - a == {};
    DifferenceEmpty(a, b);
    DifferenceEmpty(b, a);
  }

  /** Each job starts at most once, after all its dependencies ended well, and ends at most once. */
  ghost predicate Orderly<R, E>(deps: Dependencies, results: seq<TaskResult<R, E>>, trace: seq<Event>) {
    && |results| == |deps|
    && (forall i, j :: 0 <= i < j < |trace| ==> trace[i] != trace[j])
    && (forall i :: 0 <= i < |trace| && trace[i].Started? ==>
          trace[i].node < |deps| && forall d :: d in deps[trace[i].node] ==>
            d < |deps| && results[d].Finished? && results[d].completion.succeeded && Ended(d) in trace[..i])
    && (forall i :: 0 <= i < |trace| && trace[i].Ended? ==> Started(trace[i].node) in trace[..i])
  }

  // ---- The scheduler's variables ----

  datatype Board<R, E> = Board(
    remaining: seq<nat>, failed: seq<bool>, outcomes: seq<Option<Outcome<R>>>, errors: seq<Option<E>>,
    running: set<nat>, started: set<nat>, settled: nat, trace: seq<Event>)

  /** What the tables hold for node `v`. */
  ghost predicate StatusAt<R, E>(results: seq<TaskResult<R, E>>, b: Board<R, E>, v: nat)
    requires v < |results| == |b.remaining| == |b.failed| == |b.outcomes| == |b.errors|
  {
    if b.remaining[v] > 0 then
      v !in b.started && b.outcomes[v] == None && b.errors[v] == None
    else if b.failed[v] then
      v !in b.started && b.outcomes[v] == Some(Skipped) && b.errors[v] == None
    else
      && v in b.started
      && (v in b.running ==> b.outcomes[v] == None && b.errors[v] == None)
      && (v !in b.running ==> match results[v]
            case Finished(c) => b.outcomes[v] == Some(Completed(c.value)) && b.errors[v] == None
            case Failed(e) => b.outcomes[v] == None && b.errors[v] == Some(e))
  }

  ghost predicate Tables<R, E>(results: seq<TaskResult<R, E>>, b: Board<R, E>) {
    && |results| == |b.remaining| == |b.failed| == |b.outcomes| == |b.errors|
    && b.running <= b.started <= Nodes(|results|)
    && forall v: nat :: v < |results| ==> StatusAt(results, b, v)
  }

  /** Nodes that ended or were skipped. */
  ghost function Settled<R, E>(b: Board<R, E>): (r: set<nat>) {
    set v | v in Nodes(|b.remaining|) && b.remaining[v] == 0 && v !in b.running
  }

  /** The dependencies of `v` it has heard from. */
  ghost function Heard(lists: Successors, v: nat, done: set<nat>, c: nat, given: set<nat>): (r: set<nat>) {
    Preds(lists, v) * (done + if v in given then {c} else {})
  }

  /** `failed[v]` tells whether a dependency it has heard from did not succeed. */
  ghost predicate FlagAt<R, E>(lists: Successors, results: seq<TaskResult<R, E>>, b: Board<R, E>,
      done: set<nat>, c: nat, given: set<nat>, v: nat)
    requires v < |b.failed|
  {
    b.failed[v] <==> !(Heard(lists, v, done, c, given) <= Good(results, b.started))
  }

  ghost predicate Flags<R, E>(lists: Successors, results: seq<TaskResult<R, E>>, b: Board<R, E>,
      done: set<nat>, c: nat, given: set<nat>)
  {
    |b.failed| == |lists| && forall v: nat :: v < |lists| ==> FlagAt(lists, results, b, done, c, given, v)
  }

  /** The trace tells which jobs started and which of them ended. */
  ghost predicate Traced<R, E>(deps: Dependencies, results: seq<TaskResult<R, E>>, b: Board<R, E>) {
    && Orderly(deps, results, b.trace)
    && (forall v: nat :: Started(v) in b.trace <==> v in b.started)
    && (forall v: nat :: Ended(v) in b.trace <==> v in b.started && v !in b.running)
  }

  /** Queue entries are settled nodes, once each, with their success. */
  ghost predicate Terminal<R, E>(results: seq<TaskResult<R, E>>, b: Board<R, E>, queue: seq<(nat, bool)>, waiting: set<nat>) {
    && |queue| == |waiting|
    && (forall i :: 0 <= i < |queue| ==>
          queue[i].0 in waiting && (queue[i].1 <==> queue[i].0 in Good(results, b.started)))
    && (forall i, j :: 0 <= i < j < |queue| ==> queue[i].0 != queue[j].0)
  }

  /** The tables agree with what has been told: `done` nodes to all their dependents, `c` to those in `given`. */
  ghost predicate Books<R, E>(deps: Dependencies, lists: Successors, results: seq<TaskResult<R, E>>, b: Board<R, E>,
      done: set<nat>, c: nat, given: set<nat>)
  {
    && Reversed(deps, lists) && |results| == |deps|
    && Releasing(lists, b.remaining, done, c, given)
    && Tables(results, b)
    && Flags(lists, results, b, done, c, given)
    && Traced(deps, results, b)
  }

  /** Settled nodes are those done, the current one if any, and those queued. */
  ghost predicate Ledger<R, E>(results: seq<TaskResult<R, E>>, b: Board<R, E>,
      done: set<nat>, current: set<nat>, queue: seq<(nat, bool)>, waiting: set<nat>)
  {
    && Terminal(results, b, queue, waiting)
    && Divided(Settled(b), done, current, waiting)
    && b.settled == |Settled(b)|
  }

  ghost predicate Divided(all: set<nat>, done: set<nat>, current: set<nat>, waiting: set<nat>) {
    all == done + current + waiting && done !! current && done + current !! waiting
  }

  lemma DividedStep(all: set<nat>, done: set<nat>, current: set<nat>, waiting: set<nat>, v: nat)
    requires Divided(all, done, current, waiting) && v !in all
    ensures Divided(all + {v}, done, current, waiting + {v}) && |all + {v}| == |all| + 1
  {
    assert done + current + (waiting + {v}) == done + current + waiting + {v};
  }

  // ---- One dependent hears from one settled node ----

  /** `v` hears from `c`: its count goes down and its flag records a failure. */
  function Heed<R, E>(b: Board<R, E>, v: nat, ok: bool): (r: Board<R, E>)
    requires v < |b.remaining| == |b.failed| && b.remaining[v] >= 1
  {
    b.(remaining := b.remaining[v := b.remaining[v] - 1], failed := b.failed[v := b.failed[v] || !ok])
  }

  function Skip<R, E>(b: Board<R, E>, v: nat): (r: Board<R, E>)
    requires v < |b.outcomes|
  {
    b.(outcomes := b.outcomes[v := Some(Skipped)], settled := b.settled + 1)
  }

  function Launch<R, E>(b: Board<R, E>, v: nat): (r: Board<R, E>) {
    b.(running := b.running + {v}, started := b.started + {v}, trace := b.trace + [Started(v)])
  }

  /** The whole body of the innermost loop. */
  function Notify<R, E>(b: Board<R, E>, v: nat, ok: bool): (r: Board<R, E>)
    requires v < |b.remaining| == |b.failed| == |b.outcomes| && b.remaining[v] >= 1
  {
    var heard := Heed(b, v, ok);
    if heard.remaining[v] != 0 then heard
    else if heard.failed[v] then Skip(heard, v)
    else Launch(heard, v)
  }

  /** Whether that step skipped `v`. */
  predicate Skips<R, E>(b: Board<R, E>, v: nat, ok: bool)
    requires v < |b.remaining| == |b.failed| && b.remaining[v] >= 1
  {
    b.remaining[v] == 1 && (b.failed[v] || !ok)
  }

  /** Launching a node nobody has heard from changes no verdict about the others. */
  lemma LaunchKeepsGood<R, E>(results: seq<TaskResult<R, E>>, started: set<nat>, v: nat, heard: set<nat>)
    requires v !in heard
    ensures heard <= Good(results, started) <==> heard <= Good(results, started + {v})
  {
    forall d | d in heard ensures d in Good(results, started) <==> d in Good(results, started + {v}) {
    }
  }

  lemma FlagsStep<R, E>(lists: Successors, results: seq<TaskResult<R, E>>, b: Board<R, E>, done: set<nat>, c: nat,
      given: set<nat>, v: nat, ok: bool)
    requires |b.remaining| == |b.failed| == |b.outcomes| == |lists| && v < |lists| && b.remaining[v] >= 1
    requires Flags(lists, results, b, done, c, given)
    requires c in Preds(lists, v) && v !in given && v !in done && v != c
    requires ok <==> c in Good(results, b.started)
    ensures Flags(lists, results, Notify(b, v, ok), done, c, given + {v})
  {
    var next := Notify(b, v, ok);
    forall w: nat | w < |lists| ensures FlagAt(lists, results, next, done, c, given + {v}, w) {
      assert FlagAt(lists, results, b, done, c, given, w);
      var before, after := Heard(lists, w, done, c, given), Heard(lists, w, done, c, given + {v});
      assert after == if w == v then before + {c} else before;
      LaunchKeepsGood(results, b.started, v, after);
    }
  }

  lemma TablesStep<R, E>(results: seq<TaskResult<R, E>>, b: Board<R, E>, v: nat, ok: bool)
    requires Tables(results, b) && v < |results| && b.remaining[v] >= 1
    ensures Tables(results, Notify(b, v, ok))
  {
    var next := Notify(b, v, ok);
    assert StatusAt(results, b, v);
    forall w: nat | w < |results| ensures StatusAt(results, next, w) {
      assert StatusAt(results, b, w);
    }
  }

  lemma SettledStep<R, E>(results: seq<TaskResult<R, E>>, b: Board<R, E>, v: nat, ok: bool)
    requires Tables(results, b) && v < |results| && b.remaining[v] >= 1
    ensures v !in Settled(b)
    ensures Settled(Notify(b, v, ok)) == Settled(b) + if Skips(b, v, ok) then {v} else {}
  {
    var next := Notify(b, v, ok);
    assert StatusAt(results, b, v);
    forall w: nat ensures w in Settled(next) <==> w in Settled(b) || (w == v && Skips(b, v, ok)) {
    }
  }

  /** A node that still waits for an answer is none of the settled ones. */
  lemma NotSettledYet<R, E>(results: seq<TaskResult<R, E>>, b: Board<R, E>, done: set<nat>, c: nat, v: nat)
    requires v < |b.remaining| && b.remaining[v] >= 1 && done + {c} <= Settled(b)
    ensures v !in done && v != c
  {
    assert v !in Settled(b);
    assert v !in done + {c};
  }

  lemma TraceStart<R, E>(deps: Dependencies, results: seq<TaskResult<R, E>>, trace: seq<Event>, v: nat)
    requires Orderly(deps, results, trace) && Started(v) !in trace && v < |deps|
    requires forall d :: d in deps[v] ==> d < |deps| && results[d].Finished? && results[d].completion.succeeded && Ended(d) in trace
    ensures Orderly(deps, results, trace + [Started(v)])
  {
    var next := trace + [Started(v)];
    forall i | 0 <= i < |next| && next[i].Started?
      ensures next[i].node < |deps| && forall d :: d in deps[next[i].node] ==>
        d < |deps| && results[d].Finished? && results[d].completion.succeeded && Ended(d) in next[..i]
    {
      assert next[..i] == trace[..i];
      assert trace[..|trace|] == trace;
    }
    forall i | 0 <= i < |next| && next[i].Ended? ensures Started(next[i].node) in next[..i] {
      assert next[..i] == trace[..i];
    }
  }

  lemma TraceEnd<R, E>(deps: Dependencies, results: seq<TaskResult<R, E>>, trace: seq<Event>, v: nat)
    requires Orderly(deps, results, trace) && Started(v) in trace && Ended(v) !in trace
    ensures Orderly(deps, results, trace + [Ended(v)])
  {
    var next := trace + [Ended(v)];
    forall i | 0 <= i < |next| && next[i].Started?
      ensures next[i].node < |deps| && forall d :: d in deps[next[i].node] ==>
        d < |deps| && results[d].Finished? && results[d].completion.succeeded && Ended(d) in next[..i]
    {
      assert next[..i] == trace[..i];
    }
    forall i | 0 <= i < |next| && next[i].Ended? ensures Started(next[i].node) in next[..i] {
      assert next[..i] == trace[..i];
      assert trace[..|trace|] == trace;
    }
  }

  lemma TracedLaunch<R, E>(deps: Dependencies, results: seq<TaskResult<R, E>>, b: Board<R, E>, v: nat)
    requires Traced(deps, results, b) && v < |deps| && v !in b.started && b.running <= b.started
    requires Elements(deps[v]) <= Good(results, b.started) && Elements(deps[v]) !! b.running
    ensures Traced(deps, results, Launch(b, v))
  {
    forall d | d in deps[v] ensures d < |deps| && results[d].Finished? && results[d].completion.succeeded && Ended(d) in b.trace {
      assert d in Elements(deps[v]);
    }
    TraceStart(deps, results, b.trace, v);
    var next := Launch(b, v);
    forall w: nat ensures Started(w) in next.trace <==> w in next.started {
      assert Started(w) in next.trace <==> Started(w) in b.trace || w == v;
    }
    forall w: nat ensures Ended(w) in next.trace <==> w in next.started && w !in next.running {
      assert Ended(w) in next.trace <==> Ended(w) in b.trace;
    }
  }

  /** When the last answer arrives, every dependency has been heard from. */
  lemma LastAnswer(lists: Successors, remaining: seq<nat>, done: set<nat>, c: nat, given: set<nat>, v: nat)
    requires Releasing(lists, remaining, done, c, given) && v < |lists| && remaining[v] == 0 && v in given
    ensures Preds(lists, v) <= done + {c}
  {
    var left := Preds(lists, v) - done - {c};
    assert left == {};
    assert Preds(lists, v) - (done + {c}) == left;
    DifferenceEmpty(Preds(lists, v), done + {c});
  }

  lemma TracedStep<R, E>(deps: Dependencies, lists: Successors, results: seq<TaskResult<R, E>>, b: Board<R, E>,
      done: set<nat>, c: nat, given: set<nat>, v: nat, ok: bool)
    requires Reversed(deps, lists) && Tables(results, b) && Traced(deps, results, b) && |results| == |deps|
    requires Releasing(lists, b.remaining, done, c, given)
    requires Flags(lists, results, b, done, c, given)
    requires v < |lists| && c in Preds(lists, v) && v !in given && v !in done && v != c && c !in done
    requires b.remaining[v] >= 1 && (ok <==> c in Good(results, b.started))
    requires done + {c} <= Settled(b)
    ensures Traced(deps, results, Notify(b, v, ok))
  {
    var heard := Heed(b, v, ok);
    TracedSame(deps, results, b, heard);
    if b.remaining[v] == 1 && !b.failed[v] && ok {
      ReadyToLaunch(deps, lists, results, b, done, c, given, v);
      TracedLaunch(deps, results, heard, v);
      assert Notify(b, v, ok) == Launch(heard, v);
    } else {
      TracedSame(deps, results, b, Notify(b, v, ok));
    }
  }

  /** The last good answer has arrived: all dependencies of `v` ended well. */
  lemma ReadyToLaunch<R, E>(deps: Dependencies, lists: Successors, results: seq<TaskResult<R, E>>, b: Board<R, E>,
      done: set<nat>, c: nat, given: set<nat>, v: nat)
    requires Reversed(deps, lists) && Tables(results, b) && |results| == |deps|
    requires Releasing(lists, b.remaining, done, c, given) && Flags(lists, results, b, done, c, given)
    requires v < |lists| && c in Preds(lists, v) && v !in given && c !in done
    requires b.remaining[v] == 1 && !b.failed[v] && c in Good(results, b.started) && done + {c} <= Settled(b)
    ensures v < |deps| && v !in b.started && b.running <= b.started
    ensures Elements(deps[v]) <= Good(results, b.started) && Elements(deps[v]) !! b.running
  {
    assert StatusAt(results, b, v);
    ReleaseStep(lists, b.remaining, done, c, given, v);
    LastAnswer(lists, b.remaining[v := 0], done, c, given + {v}, v);
    assert FlagAt(lists, results, b, done, c, given, v);
    assert Preds(lists, v) <= Heard(lists, v, done, c, given) + {c};
  }

  lemma TracedSame<R, E>(deps: Dependencies, results: seq<TaskResult<R, E>>, b: Board<R, E>, next: Board<R, E>)
    requires Traced(deps, results, b) && next.trace == b.trace && next.started == b.started && next.running == b.running
    ensures Traced(deps, results, next)
  {
  }

  /** Appending a newly skipped node to the queue. */
  lemma TerminalStep<R, E>(results: seq<TaskResult<R, E>>, b: Board<R, E>, queue: seq<(nat, bool)>, waiting: set<nat>,
      v: nat, ok: bool)
    requires Tables(results, b) && Terminal(results, b, queue, waiting)
    requires v < |results| && b.remaining[v] >= 1 && v !in waiting
    ensures Skips(b, v, ok) ==> Terminal(results, Notify(b, v, ok), queue + [(v, false)], waiting + {v})
    ensures !Skips(b, v, ok) ==> Terminal(results, Notify(b, v, ok), queue, waiting)
  {
    assert StatusAt(results, b, v);
    forall i | 0 <= i < |queue|
      ensures queue[i].0 in Good(results, b.started) <==> queue[i].0 in Good(results, b.started + {v})
    {
    }
  }

  /** One dependent hears from `c`: the tables move on by one edge. */
  lemma BooksStep<R, E>(deps: Dependencies, lists: Successors, results: seq<TaskResult<R, E>>, b: Board<R, E>,
      done: set<nat>, c: nat, given: set<nat>, v: nat, ok: bool)
    requires Books(deps, lists, results, b, done, c, given)
    requires done + {c} <= Settled(b) && c !in done
    requires v < |lists| && c in Preds(lists, v) && v !in given
    requires ok <==> c in Good(results, b.started)
    ensures b.remaining[v] >= 1
    ensures Books(deps, lists, results, Notify(b, v, ok), done, c, given + {v})
  {
    ReleaseStep(lists, b.remaining, done, c, given, v);
    NotSettledYet(results, b, done, c, v);
    assert Flags(lists, results, Notify(b, v, ok), done, c, given + {v}) by {
      FlagsStep(lists, results, b, done, c, given, v, ok);
    }
    assert Tables(results, Notify(b, v, ok)) by {
      TablesStep(results, b, v, ok);
    }
    assert Traced(deps, results, Notify(b, v, ok)) by {
      TracedStep(deps, lists, results, b, done, c, given, v, ok);
    }
  }

  /** ... and a skipped dependent joins the queue. */
  lemma LedgerStep<R, E>(results: seq<TaskResult<R, E>>, b: Board<R, E>,
      done: set<nat>, current: set<nat>, queue: seq<(nat, bool)>, waiting: set<nat>, v: nat, ok: bool)
    requires Tables(results, b) && Ledger(results, b, done, current, queue, waiting)
    requires v < |results| && b.remaining[v] >= 1
    ensures Skips(b, v, ok) ==> Ledger(results, Notify(b, v, ok), done, current, queue + [(v, false)], waiting + {v})
    ensures !Skips(b, v, ok) ==> Ledger(results, Notify(b, v, ok), done, current, queue, waiting)
  {
    SettledStep(results, b, v, ok);
    TerminalStep(results, b, queue, waiting, v, ok);
    DividedStep(Settled(b), done, current, waiting, v);
    if !Skips(b, v, ok) {
      assert Settled(b) + {} == Settled(b);
    }
  }

  // ---- A running job ends ----

  /** Everything settled has been told to its dependents. */
  ghost predicate Idle<R, E>(deps: Dependencies, lists: Successors, results: seq<TaskResult<R, E>>, b: Board<R, E>) {
    && Books(deps, lists, results, b, Settled(b), 0, {})
    && b.settled == |Settled(b)|
  }

  /** Recording the result of node `v`. */
  function End<R, E>(b: Board<R, E>, v: nat, result: TaskResult<R, E>): (r: Board<R, E>)
    requires v < |b.outcomes| == |b.errors|
  {
    var ended := b.(running := b.running - {v}, settled := b.settled + 1, trace := b.trace + [Ended(v)]);
    match result
    case Finished(c) => ended.(outcomes := b.outcomes[v := Some(Completed(c.value))])
    case Failed(e) => ended.(errors := b.errors[v := Some(e)])
  }

  lemma TracedEnd<R, E>(deps: Dependencies, results: seq<TaskResult<R, E>>, b: Board<R, E>, next: Board<R, E>, v: nat)
    requires Traced(deps, results, b) && v in b.running && v in b.started
    requires next.trace == b.trace + [Ended(v)] && next.started == b.started && next.running == b.running - {v}
    ensures Traced(deps, results, next)
  {
    TraceEnd(deps, results, b.trace, v);
    forall w: nat ensures Started(w) in next.trace <==> w in next.started {
      assert Started(w) in next.trace <==> Started(w) in b.trace;
    }
    forall w: nat ensures Ended(w) in next.trace <==> w in next.started && w !in next.running {
      assert Ended(w) in next.trace <==> Ended(w) in b.trace || w == v;
    }
  }

  lemma TablesEnd<R, E>(results: seq<TaskResult<R, E>>, b: Board<R, E>, v: nat)
    requires Tables(results, b) && v in b.running
    ensures v < |results| && Tables(results, End(b, v, results[v]))
    ensures v !in Settled(b) && Settled(End(b, v, results[v])) == Settled(b) + {v}
  {
    assert v in Nodes(|results|);
    var next := End(b, v, results[v]);
    assert StatusAt(results, b, v);
    forall w: nat | w < |results| ensures StatusAt(results, next, w) {
      assert StatusAt(results, b, w);
    }
  }

  lemma BooksEnd<R, E>(deps: Dependencies, lists: Successors, results: seq<TaskResult<R, E>>, b: Board<R, E>, v: nat,
      done: set<nat>)
    requires Books(deps, lists, results, b, done, 0, {}) && v in b.running
    ensures v < |results| == |b.outcomes| == |b.errors|
    ensures Books(deps, lists, results, End(b, v, results[v]), done, 0, {})
  {
    TablesEnd(results, b, v);
    var next := End(b, v, results[v]);
    TracedEnd(deps, results, b, next, v);
    forall w: nat | w < |lists| ensures FlagAt(lists, results, next, done, 0, {}, w) {
      assert FlagAt(lists, results, b, done, 0, {}, w);
    }
  }

  lemma LedgerEnd<R, E>(results: seq<TaskResult<R, E>>, b: Board<R, E>, v: nat)
    requires Tables(results, b) && v in b.running && b.settled == |Settled(b)|
    ensures v < |results|
    ensures Ledger(results, End(b, v, results[v]), Settled(b), {}, [(v, results[v].Succeeds())], {v})
  {
    TablesEnd(results, b, v);
    assert Settled(b) + {} + {v} == Settled(b) + {v};
  }

  /** Nothing given out yet: which node is about to speak does not matter. */
  lemma NothingGiven<R, E>(deps: Dependencies, lists: Successors, results: seq<TaskResult<R, E>>, b: Board<R, E>,
      done: set<nat>, c: nat, c': nat)
    requires Books(deps, lists, results, b, done, c, {})
    ensures Books(deps, lists, results, b, done, c', {})
  {
    forall w: nat | w < |lists| ensures FlagAt(lists, results, b, done, c', {}, w) {
      assert FlagAt(lists, results, b, done, c, {}, w);
    }
  }

  lemma {:induction false} QueueMembers(queue: seq<(nat, bool)>, waiting: set<nat>)
    requires |queue| == |waiting|
    requires forall i :: 0 <= i < |queue| ==> queue[i].0 in waiting
    requires forall i, j :: 0 <= i < j < |queue| ==> queue[i].0 != queue[j].0
    ensures queue != [] ==> |waiting - {queue[0].0}| == |waiting| - 1
    ensures queue == [] ==> waiting == {}
  {
  }

  lemma PopStep<R, E>(results: seq<TaskResult<R, E>>, b: Board<R, E>, done: set<nat>,
      queue: seq<(nat, bool)>, waiting: set<nat>)
    requires Ledger(results, b, done, {}, queue, waiting) && queue != []
    ensures var c := queue[0].0;
      && c in Settled(b) && c !in done
      && (queue[0].1 <==> c in Good(results, b.started))
      && Ledger(results, b, done, {c}, queue[1..], waiting - {c})
  {
    var c := queue[0].0;
    TerminalPop(results, b, queue, waiting);
    DividedPop(Settled(b), done, waiting, c);
  }

  lemma TerminalPop<R, E>(results: seq<TaskResult<R, E>>, b: Board<R, E>, queue: seq<(nat, bool)>, waiting: set<nat>)
    requires Terminal(results, b, queue, waiting) && queue != []
    ensures queue[0].0 in waiting && (queue[0].1 <==> queue[0].0 in Good(results, b.started))
    ensures Terminal(results, b, queue[1..], waiting - {queue[0].0})
  {
    QueueMembers(queue, waiting);
  }

  lemma DividedPop(all: set<nat>, done: set<nat>, waiting: set<nat>, c: nat)
    requires Divided(all, done, {}, waiting) && c in waiting
    ensures c in all && c !in done && Divided(all, done, {c}, waiting - {c})
  {
    assert done + {} + waiting == done + {c} + (waiting - {c});
  }

  /** All dependents of `c` have been told. */
  lemma ToldAll<R, E>(deps: Dependencies, lists: Successors, results: seq<TaskResult<R, E>>, b: Board<R, E>,
      done: set<nat>, c: nat)
    requires c < |lists| && Books(deps, lists, results, b, done, c, Elements(lists[c]))
    ensures Books(deps, lists, results, b, done + {c}, 0, {})
  {
    ReleaseEnd(lists, b.remaining, done, c);
    ReleaseNone(lists, b.remaining, done + {c}, 0);
    FlagsEnd(lists, results, b, done, c);
  }

  lemma FlagsEnd<R, E>(lists: Successors, results: seq<TaskResult<R, E>>, b: Board<R, E>, done: set<nat>, c: nat)
    requires c < |lists| && Flags(lists, results, b, done, c, Elements(lists[c]))
    ensures Flags(lists, results, b, done + {c}, 0, {})
  {
    forall w: nat | w < |lists| ensures FlagAt(lists, results, b, done + {c}, 0, {}, w) {
      assert FlagAt(lists, results, b, done, c, Elements(lists[c]), w);
      assert Heard(lists, w, done, c, Elements(lists[c])) == Heard(lists, w, done + {c}, 0, {});
    }
  }

  lemma ReleaseNone(lists: Successors, remaining: seq<nat>, done: set<nat>, c: nat)
    requires Counts(lists, remaining, done)
    ensures Releasing(lists, remaining, done, c, {})
  {
    forall v | 0 <= v < |lists| ensures remaining[v] == |Preds(lists, v) - done - {}| {
      assert Preds(lists, v) - done - {} == Preds(lists, v) - done;
    }
  }

  lemma ReleaseAny(lists: Successors, remaining: seq<nat>, done: set<nat>, c: nat)
    requires Releasing(lists, remaining, done, c, {})
    ensures Counts(lists, remaining, done)
  {
    forall v | 0 <= v < |lists| ensures remaining[v] == |Preds(lists, v) - done| {
      assert Preds(lists, v) - done - {} == Preds(lists, v) - done;
    }
  }

  lemma StartedLater<R, E>(results: seq<TaskResult<R, E>>, b: Board<R, E>, v: nat, ok: bool, c: nat)
    requires |b.remaining| == |b.failed| == |b.outcomes| && v < |b.remaining| && b.remaining[v] >= 1
    requires c in Settled(b)
    ensures c in Good(results, Notify(b, v, ok).started) <==> c in Good(results, b.started)
    ensures Notify(b, v, ok).settled >= b.settled
  {
  }

  /** `c`, with verdict `ok`, has told the dependents in `given`. */
  ghost predicate Telling<R, E>(deps: Dependencies, lists: Successors, results: seq<TaskResult<R, E>>, b: Board<R, E>,
      done: set<nat>, c: nat, ok: bool, given: set<nat>, queue: seq<(nat, bool)>, waiting: set<nat>)
  {
    && Books(deps, lists, results, b, done, c, given)
    && Ledger(results, b, done, {c}, queue, waiting)
    && (ok <==> c in Good(results, b.started))
  }

  lemma TellOne<R, E>(deps: Dependencies, lists: Successors, results: seq<TaskResult<R, E>>, b: Board<R, E>,
      done: set<nat>, c: nat, ok: bool, given: set<nat>, queue: seq<(nat, bool)>, waiting: set<nat>, v: nat)
    requires Telling(deps, lists, results, b, done, c, ok, given, queue, waiting)
    requires v < |lists| && c in Preds(lists, v) && v !in given
    ensures v < |b.remaining| == |b.failed| == |b.outcomes| && b.remaining[v] >= 1
    ensures var next := Notify(b, v, ok);
      && next.settled >= b.settled
      && Telling(deps, lists, results, next, done, c, ok, given + {v},
           if Skips(b, v, ok) then queue + [(v, false)] else queue, if Skips(b, v, ok) then waiting + {v} else waiting)
  {
    LedgerParts(results, b, done, c, queue, waiting);
    BooksStep(deps, lists, results, b, done, c, given, v, ok);
    LedgerStep(results, b, done, {c}, queue, waiting, v, ok);
    StartedLater(results, b, v, ok, c);
  }

  lemma LedgerParts<R, E>(results: seq<TaskResult<R, E>>, b: Board<R, E>, done: set<nat>, c: nat,
      queue: seq<(nat, bool)>, waiting: set<nat>)
    requires Ledger(results, b, done, {c}, queue, waiting)
    ensures done + {c} <= Settled(b) && c !in done && c in Settled(b)
    ensures Ledger(results, b, done + {c}, {}, queue, waiting)
  {
    assert done + {c} + {} + waiting == done + {c} + waiting;
  }

  lemma TellStart<R, E>(deps: Dependencies, lists: Successors, results: seq<TaskResult<R, E>>, b: Board<R, E>,
      done: set<nat>, queue: seq<(nat, bool)>, waiting: set<nat>)
    requires Books(deps, lists, results, b, done, 0, {})
    requires Ledger(results, b, done, {}, queue, waiting) && queue != []
    ensures Telling(deps, lists, results, b, done, queue[0].0, queue[0].1, {}, queue[1..], waiting - {queue[0].0})
    ensures queue[0].0 !in done && done + {queue[0].0} <= Nodes(|lists|)
  {
    var c := queue[0].0;
    PopStep(results, b, done, queue, waiting);
    NothingGiven(deps, lists, results, b, done, 0, c);
    assert Settled(b) <= Nodes(|lists|);
  }

  lemma TellEnd<R, E>(deps: Dependencies, lists: Successors, results: seq<TaskResult<R, E>>, b: Board<R, E>,
      done: set<nat>, c: nat, ok: bool, queue: seq<(nat, bool)>, waiting: set<nat>)
    requires c < |lists| && Telling(deps, lists, results, b, done, c, ok, Elements(lists[c]), queue, waiting)
    ensures Books(deps, lists, results, b, done + {c}, 0, {})
    ensures Ledger(results, b, done + {c}, {}, queue, waiting)
  {
    LedgerParts(results, b, done, c, queue, waiting);
    ToldAll(deps, lists, results, b, done, c);
  }

  lemma FullEdges(lists: Successors, c: nat)
    requires c < |lists|
    ensures Elements(lists[c][..|lists[c]|]) == Elements(lists[c])
  {
    assert lists[c][..|lists[c]|] == lists[c];
  }

  /** A settled node tells each dependent in turn. */
  method Tell<R, E>(ghost deps: Dependencies, lists: Successors, ghost results: seq<TaskResult<R, E>>, board: Board<R, E>,
      ghost done: set<nat>, c: nat, ok: bool, pending: seq<(nat, bool)>, ghost before: set<nat>)
    returns (b: Board<R, E>, queue: seq<(nat, bool)>, ghost waiting: set<nat>)
    requires c < |lists| && Telling(deps, lists, results, board, done, c, ok, {}, pending, before)
    ensures Telling(deps, lists, results, b, done, c, ok, Elements(lists[c]), queue, waiting)
    ensures b.settled >= board.settled
  {
    b, queue, waiting := board, pending, before;
    ghost var given := {};
    for j := 0 to |lists[c]|
      invariant given == Elements(lists[c][..j])
      invariant Telling(deps, lists, results, b, done, c, ok, given, queue, waiting)
      invariant b.settled >= board.settled
    {
      var v := lists[c][j];
      EdgeSnoc(lists, c, j);
      TellOne(deps, lists, results, b, done, c, ok, given, queue, waiting, v);
      given := given + {v};
      waiting := if Skips(b, v, ok) then waiting + {v} else waiting;
      queue := if Skips(b, v, ok) then queue + [(v, false)] else queue;
      b := Notify(b, v, ok);
    }
    FullEdges(lists, c);
  }

  /** A job ends: record it, then let the news, and every skip it causes, reach all dependents. */
  method Settle<R, E>(ghost deps: Dependencies, lists: Successors, results: seq<TaskResult<R, E>>, board: Board<R, E>, index: nat)
    returns (b: Board<R, E>)
    requires Idle(deps, lists, results, board) && index in board.running
    ensures Idle(deps, lists, results, b)
    ensures b.settled > board.settled
  {
    ghost var done, waiting := Settled(board), {index};
    BooksEnd(deps, lists, results, board, index, done);
    LedgerEnd(results, board, index);
    b := End(board, index, results[index]);
    var queue := [(index, results[index].Succeeds())];
    while queue != []
      invariant Books(deps, lists, results, b, done, 0, {})
      invariant Ledger(results, b, done, {}, queue, waiting)
      invariant done <= Nodes(|lists|) && b.settled > board.settled
      decreases |lists| - |done|
    {
      TellStart(deps, lists, results, b, done, queue, waiting);
      var (c, ok) := queue[0];
      b, queue, waiting := Tell(deps, lists, results, b, done, c, ok, queue[1..], waiting - {c});
      TellEnd(deps, lists, results, b, done, c, ok, queue, waiting);
      SubsetSize(done + {c}, Nodes(|lists|));
      done := done + {c};
    }
    assert waiting == {};
    assert Settled(b) == done;
  }

  // ---- The whole run ----

  /** Unsettled nodes that all still wait, wait for each other. */
  lemma WaitingTrap(lists: Successors, remaining: seq<nat>, settled: set<nat>)
    requires Counts(lists, remaining, settled)
    requires forall v :: v in Nodes(|lists|) - settled ==> remaining[v] > 0
    ensures Trap(lists, Nodes(|lists|) - settled)
  {
    var trap := Nodes(|lists|) - settled;
    forall v | v in trap ensures Preds(lists, v) * trap != {} {
      ZeroMeansDone(lists, remaining, settled, v);
      var u :| u in Preds(lists, v) && u !in settled;
      assert u in Preds(lists, v) * trap;
    }
  }

  /** A graph that has not settled always has a job running: no run can stall. */
  lemma Progress<R, E>(deps: Dependencies, lists: Successors, results: seq<TaskResult<R, E>>, b: Board<R, E>)
    requires Idle(deps, lists, results, b) && Acyclic(lists) && b.settled < |deps|
    ensures b.running != {}
  {
    IdleCounts(deps, lists, results, b);
    if b.running == {} {
      AllSettled(lists, b.remaining, Settled(b));
    }
  }

  lemma IdleCounts<R, E>(deps: Dependencies, lists: Successors, results: seq<TaskResult<R, E>>, b: Board<R, E>)
    requires Idle(deps, lists, results, b)
    ensures |lists| == |deps| && Counts(lists, b.remaining, Settled(b))
    ensures b.running == {} ==> forall v :: v in Nodes(|lists|) - Settled(b) ==> b.remaining[v] > 0
  {
    ReleaseAny(lists, b.remaining, Settled(b), 0);
  }

  lemma AllSettled(lists: Successors, remaining: seq<nat>, settled: set<nat>)
    requires Counts(lists, remaining, settled) && Acyclic(lists)
    requires forall v :: v in Nodes(|lists|) - settled ==> remaining[v] > 0
    ensures |settled| >= |lists|
  {
    WaitingTrap(lists, remaining, settled);
    NoTrap(lists, Nodes(|lists|) - settled);
    DifferenceEmpty(Nodes(|lists|), settled);
    SubsetSize(Nodes(|lists|), settled);
  }

  lemma NothingRuns<R, E>(results: seq<TaskResult<R, E>>, b: Board<R, E>)
    requires Tables(results, b) && b.settled == |Settled(b)| >= |results|
    ensures Settled(b) == Nodes(|results|) && b.running == {}
    ensures forall v: nat :: v < |results| ==> b.remaining[v] == 0
  {
    SubsetSize(Settled(b), Nodes(|results|));
    forall v: nat | v < |results| ensures b.remaining[v] == 0 {
      assert v in Settled(b);
    }
    assert b.running == b.running * Settled(b);
  }

  /** `v` started exactly when all its dependencies succeeded. */
  lemma StartedRightly<R, E>(deps: Dependencies, lists: Successors, results: seq<TaskResult<R, E>>, b: Board<R, E>, v: nat)
    requires Reversed(deps, lists) && |results| == |deps| && Tables(results, b) && v < |deps|
    requires Flags(lists, results, b, Nodes(|deps|), 0, {}) && b.remaining[v] == 0
    ensures v in b.started <==> Elements(deps[v]) <= Good(results, b.started)
  {
    assert StatusAt(results, b, v);
    assert FlagAt(lists, results, b, Nodes(|deps|), 0, {}, v);
    assert Preds(lists, v) <= Nodes(|deps|);
    assert Heard(lists, v, Nodes(|deps|), 0, {}) == Elements(deps[v]);
  }

  /** Once every node has settled, the nodes that started are exactly the nodes that should run. */
  lemma SettledAll<R, E>(deps: Dependencies, lists: Successors, results: seq<TaskResult<R, E>>, b: Board<R, E>)
    requires Idle(deps, lists, results, b) && b.settled >= |deps|
    ensures b.running == {} && RanSet(deps, results, b.started)
    ensures forall v: nat :: v < |deps| ==> b.remaining[v] == 0
  {
    NothingRuns(results, b);
    forall v: nat | v < |deps| ensures v in b.started <==> Elements(deps[v]) <= Good(results, b.started) {
      StartedRightly(deps, lists, results, b, v);
    }
  }

  /** The first recorded error, in node order. */
  method FirstRecorded<R, E>(results: seq<TaskResult<R, E>>, b: Board<R, E>) returns (r: Option<E>)
    requires Tables(results, b) && b.running == {} && forall v: nat :: v < |results| ==> b.remaining[v] == 0
    ensures r == FirstError(results, b.started, 0)
  {
    for v := 0 to |b.errors|
      invariant FirstError(results, b.started, 0) == FirstError(results, b.started, v)
    {
      assert StatusAt(results, b, v);
      if b.errors[v].Some? {
        return b.errors[v];
      }
    }
    r := None;
  }

  lemma {:induction false} NoErrors<R, E>(results: seq<TaskResult<R, E>>, ran: set<nat>, from: nat, v: nat)
    requires from <= v < |results| && FirstError(results, ran, from) == None && v in ran
    ensures results[v].Finished?
    decreases v - from
  {
    if from < v {
      NoErrors(results, ran, from + 1, v);
    }
  }

  /** Every recorded outcome, in node order. */
  method RecordedOutcomes<R, E>(ghost results: seq<TaskResult<R, E>>, b: Board<R, E>) returns (outcomes: seq<Outcome<R>>)
    requires Tables(results, b) && b.running == {} && forall v: nat :: v < |results| ==> b.remaining[v] == 0
    requires FirstError(results, b.started, 0) == None
    ensures |outcomes| == |results|
    ensures forall w :: 0 <= w < |results| ==>
      if w in b.started then results[w].Finished? && outcomes[w] == Completed(results[w].completion.value)
      else outcomes[w] == Skipped
  {
    outcomes := [];
    for v := 0 to |b.outcomes|
      invariant |outcomes| == v
      invariant forall w :: 0 <= w < v ==>
        if w in b.started then results[w].Finished? && outcomes[w] == Completed(results[w].completion.value)
        else outcomes[w] == Skipped
    {
      assert StatusAt(results, b, v);
      if v in b.started {
        NoErrors(results, b.started, 0, v);
      }
      outcomes := outcomes + [b.outcomes[v].value];
    }
  }

  /** The final collection: the first error, or every outcome. */
  method Collect<R, E>(deps: Dependencies, ghost lists: Successors, results: seq<TaskResult<R, E>>, b: Board<R, E>)
    returns (r: DagResult<R, E>)
    requires Idle(deps, lists, results, b) && b.settled >= |deps|
    ensures IsAnswer(deps, results, b.started, r)
  {
    SettledAll(deps, lists, results, b);
    var error := FirstRecorded(results, b);
    if error.Some? {
      return Err(Task(error.value));
    }
    var outcomes := RecordedOutcomes(results, b);
    r := Ok(outcomes);
  }

  /** Reverses the dependencies of a valid graph, as `execute_dag` does before it starts. */
  method BuildDependents(deps: Dependencies) returns (lists: Successors, remaining: seq<nat>)
    requires ValidGraph(deps)
    ensures Reversed(deps, lists) && Acyclic(lists) && Counts(lists, remaining, {})
    ensures |remaining| == |deps| && forall v :: 0 <= v < |deps| ==> remaining[v] == |deps[v]|
  {
    remaining := [];
    lists := seq(|deps|, _ => []);
    for v := 0 to |deps|
      invariant |remaining| == v && forall w :: 0 <= w < v ==> remaining[w] == |deps[w]|
      invariant ListedBelow(deps, lists, v)
    {
      assert GoodList(deps, v);
      remaining := remaining + [|deps[v]|];
      lists := AddDependents(deps, lists, v);
    }
    ListedIsReversed(deps, lists);
    LengthsCount(deps, lists, remaining);
    SameCycles(deps, lists);
  }

  /** Starts every job without dependencies, in node order. */
  method LaunchRoots<R, E>(deps: Dependencies, ghost lists: Successors, ghost results: seq<TaskResult<R, E>>, remaining: seq<nat>)
    returns (b: Board<R, E>)
    requires |results| == |deps| && Reversed(deps, lists) && Counts(lists, remaining, {})
    requires |remaining| == |deps| && forall v :: 0 <= v < |deps| ==> remaining[v] == |deps[v]|
    ensures Idle(deps, lists, results, b)
  {
    b := LaunchReady(deps, results, remaining);
    RootsIdle(deps, lists, results, b);
  }

  method LaunchReady<R, E>(deps: Dependencies, ghost results: seq<TaskResult<R, E>>, remaining: seq<nat>)
    returns (b: Board<R, E>)
    requires |results| == |deps| == |remaining| && forall v :: 0 <= v < |deps| ==> remaining[v] == |deps[v]|
    ensures b.remaining == remaining && Blank(b) && RootsUpTo(deps, results, b, |deps|)
  {
    var n := |deps|;
    b := Board(remaining, seq(n, _ => false), seq(n, _ => None), seq(n, _ => None), {}, {}, 0, []);
    for v := 0 to n
      invariant b.remaining == remaining && Blank(b) && RootsUpTo(deps, results, b, v)
    {
      if remaining[v] == 0 {
        RootLaunched(deps, results, b, v);
        b := Launch(b, v);
      }
    }
  }

  /** Nothing has failed, ended or been counted yet. */
  ghost predicate Blank<R, E>(b: Board<R, E>) {
    && |b.failed| == |b.outcomes| == |b.errors| == |b.remaining| && b.settled == 0
    && forall v: nat :: v < |b.remaining| ==> !b.failed[v] && b.outcomes[v] == None && b.errors[v] == None
  }

  /** Of the first `v` nodes, those that wait for nothing are running. */
  ghost predicate RootsUpTo<R, E>(deps: Dependencies, results: seq<TaskResult<R, E>>, b: Board<R, E>, v: nat) {
    && b.running == b.started && v <= |b.remaining|
    && (forall w: nat :: w in b.started <==> w < v && b.remaining[w] == 0)
    && Traced(deps, results, b)
  }

  lemma RootLaunched<R, E>(deps: Dependencies, results: seq<TaskResult<R, E>>, b: Board<R, E>, v: nat)
    requires v < |deps| == |b.remaining| && |deps[v]| == b.remaining[v] == 0 && RootsUpTo(deps, results, b, v)
    ensures RootsUpTo(deps, results, Launch(b, v), v + 1)
  {
    assert Elements(deps[v]) == {};
    TracedLaunch(deps, results, b, v);
  }

  lemma RootsIdle<R, E>(deps: Dependencies, lists: Successors, results: seq<TaskResult<R, E>>, b: Board<R, E>)
    requires |results| == |deps| && Reversed(deps, lists) && Counts(lists, b.remaining, {})
    requires |b.remaining| == |deps| && Blank(b) && RootsUpTo(deps, results, b, |deps|)
    ensures Idle(deps, lists, results, b)
  {
    assert Settled(b) == {};
    ReleaseNone(lists, b.remaining, {}, 0);
    forall v: nat | v < |lists| ensures FlagAt(lists, results, b, {}, 0, {}, v) {
      assert Heard(lists, v, {}, 0, {}) == {};
    }
  }

  /**
   `execute_dag`. The completion order is an arbitrary choice among the running
   jobs. `trace` lists the calls of `run` and the completions, in order.
   */
  method Execute<R, E>(deps: Dependencies, results: seq<TaskResult<R, E>>)
    returns (r: DagResult<R, E>, trace: seq<Event>, ghost ran: set<nat>)
    requires |results| == |deps|
    ensures !ValidGraph(deps) ==> r == Err(InvalidGraph) && trace == []
    ensures ValidGraph(deps) ==> IsAnswer(deps, results, ran, r)
    ensures ValidGraph(deps) ==> forall v: nat :: v < |deps| ==>
      (v in ran <==> forall d :: d in deps[v] ==> d in ran && results[d].Finished? && results[d].completion.succeeded)
    ensures Orderly(deps, results, trace)
    ensures ValidGraph(deps) ==> forall v: nat :: v in ran <==> Started(v) in trace
    ensures ValidGraph(deps) ==> forall v: nat :: v in ran <==> Ended(v) in trace
  {
    var ok := Validate(deps);
    if !ok {
      return Err(InvalidGraph), [], {};
    }
    var lists, remaining := BuildDependents(deps);
    var b := LaunchRoots(deps, lists, results, remaining);
    while b.settled < |deps|
      invariant Idle(deps, lists, results, b)
      decreases |deps| - b.settled
    {
      Progress(deps, lists, results, b);
      var index :| index in b.running;
      b := Settle(deps, lists, results, b, index);
    }
    SettledAll(deps, lists, results, b);
    r := Collect(deps, lists, results, b);
    trace, ran := b.trace, b.started;
    RanMeans(deps, results, ran);
  }

  lemma ReversedExists(deps: Dependencies) returns (lists: Successors)
    requires forall v :: 0 <= v < |deps| ==> GoodList(deps, v)
    ensures Reversed(deps, lists)
  {
    lists := seq(|deps|, u requires 0 <= u < |deps| => Waiters(deps, u, |deps|));
    forall u | 0 <= u < |lists| ensures ListOf(deps, lists[u], u, |deps|) {
    }
    ListedIsReversed(deps, lists);
  }

  ghost function Waiters(deps: Dependencies, u: nat, v: nat): (r: seq<nat>)
    requires v <= |deps|
    ensures ListOf(deps, r, u, v)
  {
    if v == 0 then []
    else if u in deps[v - 1] then Waiters(deps, u, v - 1) + [v - 1]
    else Waiters(deps, u, v - 1)
  }

  /** The answer depends on the graph and the job results only, never on the completion order. */
  lemma AnswerUnique<R, E>(deps: Dependencies, results: seq<TaskResult<R, E>>,
      ran: set<nat>, r: DagResult<R, E>, ran': set<nat>, r': DagResult<R, E>)
    requires ValidGraph(deps) && IsAnswer(deps, results, ran, r) && IsAnswer(deps, results, ran', r')
    ensures ran == ran' && r == r'
  {
    var lists := ReversedExists(deps);
    SameCycles(deps, lists);
    RanSetUnique(deps, lists, results, ran, ran');
    if r.Ok? {
      assert r.outcomes == r'.outcomes;
    }
  }
}

/**
 `reserve_atomic_u64` and `reserve_atomic_u32`: any number of callers reserve
 amounts from one shared counter with compare-exchange retry loops.
 */
module Budget {
  /** Where one caller's loop stands. A rejection remembers the counter value it was computed from. */
  datatype Phase = Entering | Trying(current: nat) | Accepted | Rejected(reported: nat, seen: nat)

  datatype Caller = Caller(amount: nat, phase: Phase)

  /** The shared counter and every caller. */
  datatype State = State(counter: nat, callers: seq<Caller>)

  /** `limit` is the budget and `max` the largest value of the counter's integer type. */
  datatype Limits = Limits(limit: nat, max: nat)

  /** The amounts of the callers that were accepted. */
  function Granted(callers: seq<Caller>): (r: nat) {
    if callers == [] then 0
    else
      var last := callers[|callers| - 1];
      Granted(callers[..|callers| - 1]) + (if last.phase.Accepted? then last.amount else 0)
  }

  ghost predicate Init(l: Limits, s: State) {
    && l.limit <= l.max && s.counter == 0
    && forall i :: 0 <= i < |s.callers| ==> s.callers[i].phase == Entering && s.callers[i].amount <= l.max
  }

  /** What `checked_add` and the comparison decide from a value read earlier. */
  function Decide(l: Limits, current: nat, amount: nat): (r: Phase) {
    if current + amount > l.max then Rejected(l.max, current)
    else if current + amount > l.limit then Rejected(current + amount, current)
    else Trying(current)
  }

  /** One atomic action of caller `i`; a weak exchange may fail even when the counter matches. */
  ghost predicate Step(l: Limits, s: State, t: State, i: nat) {
    && i < |s.callers|
    && var c := s.callers[i];
       match c.phase
       case Entering => t == Moved(s, i, s.counter, Trying(s.counter))
       case Trying(current) =>
         if Decide(l, current, c.amount).Rejected? then t == Moved(s, i, s.counter, Decide(l, current, c.amount))
         else
           || (s.counter == current && t == Moved(s, i, current + c.amount, Accepted))
           || t == Moved(s, i, s.counter, Trying(s.counter))
       case _ => false
  }

  function Moved(s: State, i: nat, counter: nat, phase: Phase): (r: State)
    requires i < |s.callers|
  {
    State(counter, s.callers[i := s.callers[i].(phase := phase)])
  }

  /** A run: consecutive states differ by one action of some caller. */
  ghost predicate Run(l: Limits, run: seq<State>) {
    && run != [] && Init(l, run[0])
    && forall k :: 0 < k < |run| ==> Next(l, run[k - 1], run[k])
  }

  ghost predicate Next(l: Limits, s: State, t: State) {
    exists i: nat :: Step(l, s, t, i)
  }

  /** A rejection was justified by the value seen, and the counter has not dropped below that value. */
  ghost predicate Justified(l: Limits, s: State, c: Caller) {
    match c.phase
    case Trying(current) => current <= s.counter
    case Rejected(reported, seen) =>
      && seen <= s.counter && seen + c.amount > l.limit
      && reported == (if seen + c.amount > l.max then l.max else seen + c.amount)
    case _ => true
  }

  ghost predicate Inv(l: Limits, s: State) {
    && l.limit <= l.max && s.counter == Granted(s.callers) <= l.limit
    && forall i :: 0 <= i < |s.callers| ==> Justified(l, s, s.callers[i])
  }

  /** The amount does not fit now, and the reported total exceeds the limit or stands for an overflow. */
  ghost predicate StillTooMuch(l: Limits, s: State, c: Caller)
    requires c.phase.Rejected?
  {
    && s.counter + c.amount > l.limit
    && (c.phase.reported > l.limit || (c.phase.reported == l.max && s.counter + c.amount > l.max))
  }

  lemma {:induction false} GrantedUpdate(callers: seq<Caller>, i: nat, phase: Phase)
    requires i < |callers| && !callers[i].phase.Accepted?
    ensures Granted(callers[i := callers[i].(phase := phase)])
         == Granted(callers) + if phase.Accepted? then callers[i].amount else 0
  {
    var next := callers[i := callers[i].(phase := phase)];
    var last := |callers| - 1;
    if i == last {
      assert next[..last] == callers[..last];
    } else {
      GrantedUpdate(callers[..last], i, phase);
      assert next[..last] == callers[..last][i := callers[i].(phase := phase)];
    }
  }

  lemma {:induction false} GrantedNothing(callers: seq<Caller>)
    requires forall i :: 0 <= i < |callers| ==> callers[i].phase == Entering
    ensures Granted(callers) == 0
  {
    if callers != [] {
      GrantedNothing(callers[..|callers| - 1]);
    }
  }

  /** Every action keeps the counter exact, within the limit, and never lowers it. */
  lemma StepKeepsInv(l: Limits, s: State, t: State, i: nat)
    requires Inv(l, s) && Step(l, s, t, i)
    ensures Inv(l, t) && s.counter <= t.counter
  {
    assert Justified(l, s, s.callers[i]);
    GrantedUpdate(s.callers, i, t.callers[i].phase);
    forall k | 0 <= k < |t.callers| ensures Justified(l, t, t.callers[k]) {
      assert Justified(l, s, s.callers[k]);
    }
  }

  /**
   In every reachable state of every interleaving the counter is the sum of
   the accepted amounts, stays within the limit, and every rejection still holds:
   what was rejected would not fit now either.
   */
  lemma {:induction false} RunsAreExact(l: Limits, run: seq<State>)
    requires Run(l, run)
    ensures Inv(l, run[|run| - 1])
    ensures var s := run[|run| - 1];
      forall i :: 0 <= i < |s.callers| && s.callers[i].phase.Rejected? ==> StillTooMuch(l, s, s.callers[i])
  {
    var last := |run| - 1;
    if last == 0 {
      GrantedNothing(run[0].callers);
    } else {
      var before := run[..last];
      assert Run(l, before);
      RunsAreExact(l, before);
      var s, t := run[last - 1], run[last];
      assert Next(l, s, t);
      var i: nat :| Step(l, s, t, i);
      StepKeepsInv(l, s, t, i);
    }
    var s := run[last];
    forall i | 0 <= i < |s.callers| && s.callers[i].phase.Rejected?
      ensures StillTooMuch(l, s, s.callers[i])
    {
      assert Justified(l, s, s.callers[i]);
    }
  }

  /** Caller `movers[k]` made the step from `run[k]` to `run[k + 1]`. */
  ghost predicate MadeBy(l: Limits, run: seq<State>, movers: seq<nat>) {
    && |run| == |movers| + 1 && Init(l, run[0])
    && forall k :: 0 <= k < |movers| ==> Step(l, run[k], run[k + 1], movers[k])
  }

  /** An accepted caller is done: nothing changes its phase or its amount. */
  lemma {:induction false} AcceptedStays(l: Limits, run: seq<State>, movers: seq<nat>, i: nat, k: nat, n: nat)
    requires MadeBy(l, run, movers) && k <= n < |run| && i < |run[k].callers| && run[k].callers[i].phase.Accepted?
    ensures i < |run[n].callers| && run[n].callers[i] == run[k].callers[i]
    decreases n
  {
    if k < n {
      AcceptedStays(l, run, movers, i, k, n - 1);
      assert Step(l, run[n - 1], run[n], movers[n - 1]);
    }
  }

  /** A reservation that is rejected in the end changed the counter in none of its steps. */
  lemma RejectedMovesNothing(l: Limits, run: seq<State>, movers: seq<nat>, i: nat, k: nat)
    requires MadeBy(l, run, movers) && k < |movers| && movers[k] == i
    requires i < |run[|run| - 1].callers| && run[|run| - 1].callers[i].phase.Rejected?
    ensures run[k + 1].counter == run[k].counter
  {
    assert Step(l, run[k], run[k + 1], i);
    if run[k + 1].callers[i].phase.Accepted? {
      AcceptedStays(l, run, movers, i, k + 1, |run| - 1);
    }
  }
}

/**
 `CancellationToken`: one flag and one notifier, shared by any number of
 cancellers and waiters, each step interleaved at will.
 */
module Cancellation {
  /** A waiter in `cancelled()`: before `enable`, enabled, or asleep in `notified.await`. */
  datatype Waiter = Outside | Listening(woken: bool) | Asleep(woken: bool) | Returned

  /** A caller of `cancel`: before the swap, between swap and notify, or done; `first` is its result. */
  datatype Canceller = Calling | Swapped(first: bool) | Done(first: bool)

  datatype State = State(flag: bool, waiters: seq<Waiter>, cancellers: seq<Canceller>)

  ghost predicate Init(s: State) {
    && !s.flag
    && (forall i :: 0 <= i < |s.waiters| ==> s.waiters[i] == Outside)
    && (forall j :: 0 <= j < |s.cancellers| ==> s.cancellers[j] == Calling)
  }

  /** `notify_waiters`: every enabled waiter is woken. */
  function Wake(w: Waiter): (r: Waiter) {
    match w
    case Listening(_) => Listening(true)
    case Asleep(_) => Asleep(true)
    case _ => w
  }

  /** The next state of a waiter; a sleeper without a wake-up stays asleep. */
  function Advance(flag: bool, w: Waiter): (r: Waiter) {
    match w
    case Outside => Listening(false)
    case Listening(woken) => if flag then Returned else Asleep(woken)
    case Asleep(woken) => if woken then Outside else w
    case Returned => w
  }

  ghost predicate WaiterStep(s: State, t: State, i: nat) {
    i < |s.waiters| && t == s.(waiters := s.waiters[i := Advance(s.flag, s.waiters[i])])
  }

  ghost predicate CancelStep(s: State, t: State, j: nat) {
    && j < |s.cancellers|
    && match s.cancellers[j]
       case Calling => t == s.(flag := true, cancellers := s.cancellers[j := Swapped(!s.flag)])
       case Swapped(false) => t == s.(cancellers := s.cancellers[j := Done(false)])
       case Swapped(true) =>
         && t.flag == s.flag && t.cancellers == s.cancellers[j := Done(true)] && |t.waiters| == |s.waiters|
         && forall i :: 0 <= i < |s.waiters| ==> t.waiters[i] == Wake(s.waiters[i])
       case Done(_) => false
  }

  ghost predicate Step(s: State, t: State) {
    (exists i: nat :: WaiterStep(s, t, i)) || (exists j: nat :: CancelStep(s, t, j))
  }

  ghost predicate Run(run: seq<State>) {
    && run != [] && Init(run[0])
    && forall k :: 0 < k < |run| ==> Step(run[k - 1], run[k])
  }

  /** This canceller was the one that set the flag. */
  predicate Won(c: Canceller) {
    (c.Swapped? || c.Done?) && c.first
  }

  /** The winner has notified. */
  ghost predicate Notified(s: State) {
    exists j :: 0 <= j < |s.cancellers| && s.cancellers[j] == Done(true)
  }

  ghost predicate Inv(s: State) {
    && (s.flag <==> exists j :: 0 <= j < |s.cancellers| && Won(s.cancellers[j]))
    && (forall j, k :: 0 <= j < k < |s.cancellers| ==> !(Won(s.cancellers[j]) && Won(s.cancellers[k])))
    && (forall j :: 0 <= j < |s.cancellers| && !s.cancellers[j].Calling? ==> s.flag)
    && (forall i :: 0 <= i < |s.waiters| && s.waiters[i].Returned? ==> s.flag)
    && (Notified(s) ==> forall i :: 0 <= i < |s.waiters| ==> s.waiters[i] != Asleep(false))
  }

  lemma WaiterKeepsInv(s: State, t: State, i: nat)
    requires Inv(s) && WaiterStep(s, t, i)
    ensures Inv(t)
  {
    assert t.cancellers == s.cancellers;
    assert Notified(t) <==> Notified(s);
    if Notified(s) {
      var j :| 0 <= j < |s.cancellers| && s.cancellers[j] == Done(true);
      assert s.flag;
    }
  }

  lemma CancelKeepsInv(s: State, t: State, j: nat)
    requires Inv(s) && CancelStep(s, t, j)
    ensures Inv(t)
  {
    assert t.flag && !t.cancellers[j].Calling?;
    if s.flag {
      var w :| 0 <= w < |s.cancellers| && Won(s.cancellers[w]);
      assert Won(t.cancellers[w]);
    } else {
      assert Won(t.cancellers[j]);
    }
    if s.cancellers[j] != Swapped(true) {
      forall k | 0 <= k < |t.cancellers| && t.cancellers[k] == Done(true) ensures s.cancellers[k] == Done(true) {
      }
      assert Notified(t) ==> Notified(s);
    }
  }

  /** The invariant holds in every reachable state. */
  lemma {:induction false} RunsKeepInv(run: seq<State>)
    requires Run(run)
    ensures Inv(run[|run| - 1])
  {
    var last := |run| - 1;
    if last > 0 {
      var before := run[..last];
      assert Run(before);
      RunsKeepInv(before);
      var s, t := run[last - 1], run[last];
      assert Step(s, t);
      if i: nat :| WaiterStep(s, t, i) {
        WaiterKeepsInv(s, t, i);
      } else {
        var j: nat :| CancelStep(s, t, j);
        CancelKeepsInv(s, t, j);
      }
    }
  }

  /** How many steps of its own a waiter needs to return once the token is cancelled and notified. */
  function Distance(w: Waiter): (r: nat) {
    match w
    case Returned => 0
    case Listening(_) => 1
    case Outside => 2
    case Asleep(_) => 3
  }

  /** Who makes a step. */
  datatype Actor = Waiting(i: nat) | Cancelling(j: nat)

  ghost predicate StepBy(s: State, t: State, actor: Actor) {
    match actor
    case Waiting(i) => WaiterStep(s, t, i)
    case Cancelling(j) => CancelStep(s, t, j)
  }

  /** A run together with who made each step. */
  ghost predicate MadeBy(run: seq<State>, actors: seq<Actor>) {
    && |run| == |actors| + 1 && Init(run[0])
    && forall k :: 0 <= k < |actors| ==> StepBy(run[k], run[k + 1], actors[k])
  }

  lemma MadeByRuns(run: seq<State>, actors: seq<Actor>, n: nat)
    requires MadeBy(run, actors) && n < |run|
    ensures Inv(run[n])
  {
    var before := run[..n + 1];
    forall k | 0 < k < |before| ensures Step(before[k - 1], before[k]) {
      assert StepBy(run[k - 1], run[k], actors[k - 1]);
    }
    RunsKeepInv(before);
  }

  /** From the notification on, no step takes a waiter further away, its own step brings it nearer. */
  lemma NearerStep(s: State, t: State, actor: Actor, i: nat)
    requires Inv(s) && Notified(s) && StepBy(s, t, actor) && i < |s.waiters|
    ensures Notified(t) && i < |t.waiters| && Distance(t.waiters[i]) <= Distance(s.waiters[i])
    ensures actor == Waiting(i) && s.waiters[i] != Returned ==> Distance(t.waiters[i]) < Distance(s.waiters[i])
  {
    var w :| 0 <= w < |s.cancellers| && s.cancellers[w] == Done(true);
    assert Won(s.cancellers[w]);
    assert t.cancellers[w] == Done(true);
  }

  /** The steps waiter `i` makes. */
  function OwnSteps(actors: seq<Actor>, i: nat): (r: nat) {
    if actors == [] then 0
    else OwnSteps(actors[..|actors| - 1], i) + if actors[|actors| - 1] == Waiting(i) then 1 else 0
  }

  /**
   No lost wake-up, in any interleaving: from any notified state on, whatever
   anyone else does, a waiter's own steps take it to its return; three suffice.
   */
  lemma {:induction false} NoLostWakeup(run: seq<State>, actors: seq<Actor>, k: nat, n: nat, i: nat)
    requires MadeBy(run, actors) && k <= n < |run| && Notified(run[k]) && i < |run[k].waiters|
    ensures Notified(run[n]) && i < |run[n].waiters|
    ensures Distance(run[n].waiters[i]) <= Distance(run[k].waiters[i])
    ensures run[n].waiters[i] == Returned ||
      Distance(run[n].waiters[i]) + OwnSteps(actors[k..n], i) <= Distance(run[k].waiters[i])
    ensures OwnSteps(actors[k..n], i) >= 3 ==> run[n].waiters[i] == Returned
    decreases n
  {
    if k == n {
      assert actors[k..n] == [];
    } else {
      NoLostWakeup(run, actors, k, n - 1, i);
      MadeByRuns(run, actors, n - 1);
      assert StepBy(run[n - 1], run[n], actors[n - 1]);
      NearerStep(run[n - 1], run[n], actors[n - 1], i);
      assert actors[k..n][..n - 1 - k] == actors[k..n - 1];
    }
  }

  /** `cancel` reports true to at most one caller. */
  lemma OnlyFirstWins(run: seq<State>, j: nat, k: nat)
    requires Run(run)
    requires j < |run[|run| - 1].cancellers| && run[|run| - 1].cancellers[j] == Done(true)
    requires k < |run[|run| - 1].cancellers| && run[|run| - 1].cancellers[k] == Done(true)
    ensures j == k
  {
    RunsKeepInv(run);
    var s := run[|run| - 1];
    assert Won(s.cancellers[j]) && Won(s.cancellers[k]);
  }

  /** `cancelled()` returns only from a cancelled token. */
  lemma ReturnMeansCancelled(run: seq<State>, i: nat)
    requires Run(run) && i < |run[|run| - 1].waiters| && run[|run| - 1].waiters[i] == Returned
    ensures run[|run| - 1].flag
  {
    RunsKeepInv(run);
  }
}

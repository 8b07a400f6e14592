/**
 The session registry: `register`, `start`, `cancel`, `close`, `child` and the
 drop handlers, interleaved at every lock, flag and map access. A registration
 is identified by its token. It is first owned by a `RegisteredProgram`, whose
 `start` hands it over to a shared program lease; whichever object is the last
 to go unregisters the request id, by id alone and under the lock.
 */
module Session {
  import opened Wrappers

  type Id = nat
  type Token = nat
  type Thread = nat

  /** Where one call stands. */
  datatype Call =
    | Registering(id: Id)
    | Waiting(id: Id, token: Token)
    | Locked(id: Id, token: Token)
    | Checked(id: Id, token: Token)
    | Registered(granted: Token)
    | Refused
    | Closing
    | Swapped
    | Sweeping(todo: set<Token>)
    | Closed(won: bool)

  /**
   The `RegisteredProgram` value: held by its caller or waiting in `start` for a
   permit; in `start` with the lease made; with its flag cleared; or dropped.
   */
  datatype Stage = Held | Leased | Cleared | Gone

  /** The objects of one registration: the value with its `registered` flag, and how many programs share the lease. */
  datatype Owner = Owner(id: Id, stage: Stage, registered: bool, holders: nat)

  /**
   `active` is the locked map; `owners` has every registration ever stored;
   `dropping` are the drop handlers that have decided to unregister and not yet
   done so, `removals` those that have; `cancelled` are the cancelled tokens.
   */
  datatype State = State(
    closed: bool, holder: Option<Thread>, active: map<Id, Token>, owners: map<Token, Owner>,
    dropping: multiset<Token>, removals: multiset<Token>,
    cancelled: set<Token>, nextToken: Token, calls: map<Thread, Call>)

  const START := State(false, None, map[], map[], multiset{}, multiset{}, {}, 0, map[])

  // ---- Steps ----

  /** Thread `t` calls `register` or `close`. */
  ghost predicate Begin(s: State, u: State, t: Thread, call: Call) {
    t !in s.calls && (call.Registering? || call.Closing?) && u == Move(s, t, call)
  }

  /** One step of the call of thread `t`. */
  ghost predicate CallStep(s: State, u: State, t: Thread) {
    && t in s.calls
    && match s.calls[t]
       case Registering(id) =>
         if s.closed then u == Move(s, t, Refused)
         else u == Move(s, t, Waiting(id, s.nextToken)).(nextToken := s.nextToken + 1)
       case Waiting(id, token) => s.holder == None && u == Move(s, t, Locked(id, token)).(holder := Some(t))
       case Locked(id, token) =>
         if s.closed then u == Move(s, t, Refused).(holder := None)
         else u == Move(s, t, Checked(id, token))
       case Checked(id, token) =>
         if id in s.active then u == Move(s, t, Refused).(holder := None)
         else u == Move(s, t, Registered(token)).(
                     holder := None, active := s.active[id := token],
                     owners := s.owners[token := Owner(id, Held, true, 0)])
       case Closing =>
         if s.closed then u == Move(s, t, Closed(false))
         else u == Move(s, t, Swapped).(closed := true)
       case Swapped =>
         s.holder == None && u == Move(s, t, Sweeping(s.active.Values)).(holder := Some(t))
       case Sweeping(todo) =>
         if todo == {} then u == Move(s, t, Closed(true)).(holder := None)
         else exists x :: x in todo && u == Move(s, t, Sweeping(todo - {x})).(cancelled := s.cancelled + {x})
       case _ => false
  }

  function Move(s: State, t: Thread, call: Call): (r: State) {
    s.(calls := s.calls[t := call])
  }

  /** `cancel(id)`, under the lock; `hit` is its answer. */
  ghost predicate Cancel(s: State, u: State, id: Id, hit: bool) {
    && s.holder == None
    && u == (if id in s.active then s.(cancelled := s.cancelled + {s.active[id]}) else s)
    && (hit <==> id in s.active && s.active[id] !in s.cancelled)
  }

  /** One step of the objects of a registration; `drops` when a drop handler decides to unregister. */
  predicate HandOver(o: Owner, next: Owner, drops: bool) {
    || (o.stage.Held? && next == o.(stage := Leased, holders := 1) && !drops)
    || (o.stage.Leased? && next == o.(stage := Cleared, registered := false) && !drops)
    || ((o.stage.Held? || o.stage.Cleared?) && next == o.(stage := Gone) && (drops <==> o.registered))
    || (o.stage.Gone? && o.holders > 0 && next == o.(holders := o.holders + 1) && !drops)
    || (o.stage.Gone? && o.holders > 0 && next == o.(holders := o.holders - 1) && (drops <==> o.holders == 1))
  }

  /**
   The permit arrives and the lease is made; the flag is cleared; the value is
   dropped, before or after that; a child program shares the lease; a program is
   dropped, the last one together with the lease.
   */
  ghost predicate OwnerStep(s: State, u: State, token: Token, next: Owner, drops: bool) {
    && token in s.owners && HandOver(s.owners[token], next, drops)
    && u == s.(owners := s.owners[token := next],
               dropping := if drops then s.dropping + multiset{token} else s.dropping)
  }

  /** `unregister`, under the lock: whatever is stored for the id goes. */
  ghost predicate Unregister(s: State, u: State, token: Token) {
    && s.holder == None && token in s.dropping && token in s.owners
    && u == s.(active := s.active - {s.owners[token].id},
               dropping := s.dropping - multiset{token}, removals := s.removals + multiset{token})
  }

  ghost predicate Step(s: State, u: State) {
    || (exists t: Thread, call: Call :: Begin(s, u, t, call))
    || (exists t: Thread :: CallStep(s, u, t))
    || (exists id: Id, hit: bool :: Cancel(s, u, id, hit))
    || (exists token: Token, next: Owner, drops: bool :: OwnerStep(s, u, token, next, drops))
    || (exists token: Token :: Unregister(s, u, token))
  }

  ghost predicate Run(run: seq<State>) {
    run != [] && run[0] == START && forall k :: 0 < k < |run| ==> Step(run[k - 1], run[k])
  }

  // ---- Invariant ----

  predicate HoldsLock(call: Call) {
    call.Locked? || call.Checked? || call.Sweeping?
  }

  predicate Pending(call: Call) {
    call.Waiting? || call.Locked? || call.Checked?
  }

  /** This close call won the swap. */
  predicate Winner(call: Call) {
    call.Swapped? || call.Sweeping? || call == Closed(true)
  }

  /** The winner has taken the lock. */
  predicate Sweeps(call: Call) {
    call.Sweeping? || call == Closed(true)
  }

  /** Some object of the registration is still there. */
  predicate Live(o: Owner) {
    !o.stage.Gone? || o.holders > 0
  }

  /** The flag and the lease agree with the stage. */
  predicate StageOk(o: Owner) {
    match o.stage
    case Held => o.registered && o.holders == 0
    case Leased => o.registered && o.holders == 1
    case Cleared => !o.registered && o.holders == 1
    case Gone => o.registered ==> o.holders == 0
  }

  /** The registration will be, is being or was unregistered, once; until then its token is the stored one. */
  ghost predicate OwnerOk(s: State, token: Token)
    requires token in s.owners
  {
    var o := s.owners[token];
    && StageOk(o)
    && s.removals[token] + s.dropping[token] + (if Live(o) then 1 else 0) == 1
    && (s.removals[token] == 0 ==> o.id in s.active && s.active[o.id] == token)
  }

  ghost predicate OwnersOk(s: State) {
    && (forall token :: token in s.owners ==> OwnerOk(s, token))
    && (forall token :: token !in s.owners ==> s.removals[token] == 0 && s.dropping[token] == 0)
  }

  ghost predicate ActiveOk(s: State) {
    forall id :: id in s.active ==> s.active[id] in s.owners && s.owners[s.active[id]].id == id && s.removals[s.active[id]] == 0
  }

  ghost predicate LockOk(s: State) {
    forall t :: t in s.calls && HoldsLock(s.calls[t]) ==> s.holder == Some(t)
  }

  /** Tokens not yet stored are new and belong to one call each. */
  ghost predicate TokensOk(s: State) {
    && (forall token :: token in s.owners ==> token < s.nextToken)
    && (forall t :: t in s.calls && Pending(s.calls[t]) ==>
          s.calls[t].token < s.nextToken && s.calls[t].token !in s.owners)
    && (forall t, t' :: t in s.calls && t' in s.calls && t != t' && Pending(s.calls[t]) && Pending(s.calls[t']) ==>
          s.calls[t].token != s.calls[t'].token)
  }

  ghost predicate CloseOk(s: State) {
    && (forall t :: t in s.calls && Winner(s.calls[t]) ==> s.closed)
    && (forall t, t' :: t in s.calls && t' in s.calls && Winner(s.calls[t]) && Winner(s.calls[t']) ==> t == t')
    && (forall t, t' :: t in s.calls && t' in s.calls && Sweeps(s.calls[t]) ==> !s.calls[t'].Checked?)
    && (forall t :: t in s.calls && s.calls[t].Sweeping? ==> s.active.Values <= s.cancelled + s.calls[t].todo)
    && (forall t :: t in s.calls && s.calls[t] == Closed(true) ==> s.active.Values <= s.cancelled)
  }

  ghost predicate Inv(s: State) {
    OwnersOk(s) && ActiveOk(s) && LockOk(s) && TokensOk(s) && CloseOk(s)
  }

  lemma BeginKeepsInv(s: State, u: State, t: Thread, call: Call)
    requires Inv(s) && Begin(s, u, t, call)
    ensures Inv(u)
  {
    OwnersSame(s, u);
    BeginKeepsTokens(s, u, t, call);
    BeginKeepsClose(s, u, t, call);
  }

  lemma BeginKeepsTokens(s: State, u: State, t: Thread, call: Call)
    requires TokensOk(s) && LockOk(s) && Begin(s, u, t, call)
    ensures TokensOk(u) && LockOk(u)
  {
  }

  lemma BeginKeepsClose(s: State, u: State, t: Thread, call: Call)
    requires CloseOk(s) && Begin(s, u, t, call)
    ensures CloseOk(u)
  {
  }

  lemma CancelKeepsInv(s: State, u: State, id: Id, hit: bool)
    requires Inv(s) && Cancel(s, u, id, hit)
    ensures Inv(u)
  {
    OwnersSame(s, u);
  }

  lemma OwnersSame(s: State, u: State)
    requires OwnersOk(s) && ActiveOk(s) && u.owners == s.owners && u.active == s.active
    requires u.dropping == s.dropping && u.removals == s.removals
    ensures OwnersOk(u) && ActiveOk(u)
  {
    forall token | token in u.owners ensures OwnerOk(u, token) {
      assert OwnerOk(s, token);
    }
  }

  lemma OwnerKeepsOwners(s: State, u: State, token: Token, next: Owner, drops: bool)
    requires OwnersOk(s) && ActiveOk(s) && OwnerStep(s, u, token, next, drops)
    ensures OwnersOk(u) && ActiveOk(u)
  {
    assert OwnerOk(s, token);
    forall x | x in u.owners ensures OwnerOk(u, x) {
      assert OwnerOk(s, x);
    }
  }

  /** Whatever unregisters is the registration that is stored: nobody removes a later one of the same id. */
  lemma RemovesItsOwn(s: State, token: Token)
    requires OwnersOk(s) && token in s.owners && token in s.dropping
    ensures s.removals[token] == 0 && !Live(s.owners[token])
    ensures s.owners[token].id in s.active && s.active[s.owners[token].id] == token
  {
    assert OwnerOk(s, token);
  }

  lemma UnregisterKeepsOwners(s: State, u: State, token: Token)
    requires OwnersOk(s) && ActiveOk(s) && Unregister(s, u, token)
    ensures OwnersOk(u) && ActiveOk(u)
  {
    RemovesItsOwn(s, token);
    forall x | x in u.owners ensures OwnerOk(u, x) {
      assert OwnerOk(s, x);
    }
  }

  lemma OwnerKeepsInv(s: State, u: State, token: Token, next: Owner, drops: bool)
    requires Inv(s) && OwnerStep(s, u, token, next, drops)
    ensures Inv(u)
  {
    OwnerKeepsOwners(s, u, token, next, drops);
    assert u.owners.Keys == s.owners.Keys;
  }

  lemma UnregisterKeepsInv(s: State, u: State, token: Token)
    requires Inv(s) && Unregister(s, u, token)
    ensures Inv(u)
  {
    UnregisterKeepsOwners(s, u, token);
    assert u.active.Values <= s.active.Values;
  }

  lemma CallKeepsOwners(s: State, u: State, t: Thread)
    requires OwnersOk(s) && ActiveOk(s) && TokensOk(s) && CallStep(s, u, t)
    ensures OwnersOk(u) && ActiveOk(u)
  {
    if s.calls[t].Checked? && s.calls[t].id !in s.active {
      StoreKeepsOwners(s, u, t, s.calls[t].id, s.calls[t].token);
    } else {
      OwnersSame(s, u);
    }
  }

  lemma StoreKeepsOwners(s: State, u: State, t: Thread, id: Id, token: Token)
    requires OwnersOk(s) && ActiveOk(s) && id !in s.active && token !in s.owners
    requires u == Move(s, t, Registered(token)).(
      holder := None, active := s.active[id := token], owners := s.owners[token := Owner(id, Held, true, 0)])
    ensures OwnersOk(u) && ActiveOk(u)
  {
    forall x | x in u.owners ensures OwnerOk(u, x) {
      if x != token {
        assert OwnerOk(s, x);
      }
    }
  }

  lemma CallKeepsLock(s: State, u: State, t: Thread)
    requires LockOk(s) && CallStep(s, u, t)
    ensures LockOk(u)
  {
    forall t' | t' in u.calls && HoldsLock(u.calls[t']) ensures u.holder == Some(t') {
      if t' != t {
        assert HoldsLock(s.calls[t']);
      }
    }
  }

  lemma CallKeepsTokens(s: State, u: State, t: Thread)
    requires TokensOk(s) && CallStep(s, u, t)
    ensures TokensOk(u)
  {
    TokenOfStep(s, u, t);
    PendingToken(s, u, t);
    forall t' | t' in u.calls && Pending(u.calls[t']) ensures u.calls[t'].token < u.nextToken && u.calls[t'].token !in u.owners {
      assert t' != t ==> u.calls[t'] == s.calls[t'];
    }
  }

  /** A step of `t` leaves the other calls alone, and stores at most the token `t` holds. */
  lemma TokenOfStep(s: State, u: State, t: Thread)
    requires TokensOk(s) && CallStep(s, u, t)
    ensures u.calls == s.calls[t := u.calls[t]] && s.nextToken <= u.nextToken
    ensures forall token :: token in u.owners ==> token in s.owners || (Pending(s.calls[t]) && token == s.calls[t].token)
    ensures u.owners != s.owners ==> !Pending(u.calls[t]) && Pending(s.calls[t])
  {
  }

  /** A call that goes on keeps its token or has drawn the next one. */
  lemma PendingToken(s: State, u: State, t: Thread)
    requires TokensOk(s) && CallStep(s, u, t)
    ensures Pending(u.calls[t]) ==> u.owners == s.owners && u.calls[t].token < u.nextToken
    ensures Pending(u.calls[t]) ==>
      u.calls[t].token == if Pending(s.calls[t]) then s.calls[t].token else s.nextToken
  {
  }

  /** Registering and refusing: what the sweep has covered stays covered. */
  lemma RegisterKeepsClose(s: State, u: State, t: Thread)
    requires LockOk(s) && CloseOk(s) && CallStep(s, u, t)
    requires !(s.calls[t].Closing? || s.calls[t].Swapped? || s.calls[t].Sweeping?)
    ensures CloseOk(u)
  {
    RegisterFrame(s, u, t);
    forall t' | t' in u.calls && Winner(u.calls[t'])
      ensures t' in s.calls && Winner(s.calls[t']) && u.calls[t'] == s.calls[t']
    {
    }
  }

  /** A registering call checks the flag before it may store anything, and stores nothing once a sweep began. */
  lemma RegisterFrame(s: State, u: State, t: Thread)
    requires CloseOk(s) && CallStep(s, u, t)
    requires !(s.calls[t].Closing? || s.calls[t].Swapped? || s.calls[t].Sweeping?)
    ensures u.calls == s.calls[t := u.calls[t]] && !Winner(u.calls[t])
    ensures u.closed == s.closed && u.cancelled == s.cancelled
    ensures u.calls[t].Checked? ==> !s.closed
    ensures u.active != s.active ==> forall t' :: t' in s.calls ==> !Sweeps(s.calls[t'])
  {
    if s.calls[t].Checked? {
      assert forall t' :: t' in s.calls && Sweeps(s.calls[t']) ==> !s.calls[t].Checked?;
    }
  }

  lemma SwapKeepsClose(s: State, u: State, t: Thread)
    requires LockOk(s) && CloseOk(s) && CallStep(s, u, t) && s.calls[t].Closing?
    ensures CloseOk(u)
  {
    forall t' | t' in u.calls && t' != t ensures u.calls[t'] == s.calls[t'] {
    }
  }

  lemma SweepKeepsClose(s: State, u: State, t: Thread)
    requires LockOk(s) && CloseOk(s) && CallStep(s, u, t) && (s.calls[t].Swapped? || s.calls[t].Sweeping?)
    ensures CloseOk(u)
  {
    forall t' | t' in u.calls && t' != t ensures u.calls[t'] == s.calls[t'] && !Winner(s.calls[t']) {
    }
    if s.calls[t].Swapped? {
      forall t' | t' in s.calls ensures !s.calls[t'].Checked? {
        assert HoldsLock(s.calls[t']) ==> s.holder == Some(t');
      }
    }
  }

  lemma CallKeepsInv(s: State, u: State, t: Thread)
    requires Inv(s) && CallStep(s, u, t)
    ensures Inv(u)
  {
    CallKeepsOwners(s, u, t);
    CallKeepsLock(s, u, t);
    CallKeepsTokens(s, u, t);
    if s.calls[t].Closing? {
      SwapKeepsClose(s, u, t);
    } else if s.calls[t].Swapped? || s.calls[t].Sweeping? {
      SweepKeepsClose(s, u, t);
    } else {
      RegisterKeepsClose(s, u, t);
    }
  }

  lemma StepKeepsInv(s: State, u: State)
    requires Inv(s) && Step(s, u)
    ensures Inv(u)
  {
    if t: Thread, call: Call :| Begin(s, u, t, call) {
      BeginKeepsInv(s, u, t, call);
    } else if t: Thread :| CallStep(s, u, t) {
      CallKeepsInv(s, u, t);
    } else if id: Id, hit: bool :| Cancel(s, u, id, hit) {
      CancelKeepsInv(s, u, id, hit);
    } else if token: Token, next: Owner, drops: bool :| OwnerStep(s, u, token, next, drops) {
      OwnerKeepsInv(s, u, token, next, drops);
    } else {
      var token: Token :| Unregister(s, u, token);
      UnregisterKeepsInv(s, u, token);
    }
  }

  /** The invariant holds in every reachable state of every interleaving. */
  lemma {:induction false} RunsKeepInv(run: seq<State>)
    requires Run(run)
    ensures Inv(run[|run| - 1])
  {
    var last := |run| - 1;
    if last > 0 {
      PrefixRuns(run, last);
      RunsKeepInv(run[..last]);
      StepKeepsInv(run[last - 1], run[last]);
    }
  }

  // ---- What it means ----

  /** The registration still has an object, or a drop handler about to unregister it. */
  predicate Owns(s: State, token: Token) {
    token in s.owners && (Live(s.owners[token]) || token in s.dropping)
  }

  /** Each active id has exactly one owner, through `start`, `child` and every drop, and its token is the stored one. */
  lemma ActiveHasOneOwner(run: seq<State>, id: Id, token: Token)
    requires Run(run) && id in run[|run| - 1].active
    ensures var s := run[|run| - 1]; (Owns(s, token) && s.owners[token].id == id) <==> token == s.active[id]
  {
    RunsKeepInv(run);
    var s := run[|run| - 1];
    assert OwnerOk(s, s.active[id]);
    if token in s.owners {
      assert OwnerOk(s, token);
    }
  }

  /** A registration is unregistered at most once, and exactly once when its objects and drop handlers are gone. */
  lemma UnregisteredOnce(run: seq<State>, token: Token)
    requires Run(run)
    ensures var s := run[|run| - 1];
      s.removals[token] == if token in s.owners && !Owns(s, token) then 1 else 0
  {
    RunsKeepInv(run);
    var s := run[|run| - 1];
    if token in s.owners {
      assert OwnerOk(s, token);
    }
  }

  /** Unregistering takes exactly its own entry: every other id keeps its token. */
  lemma NoStaleRemoval(run: seq<State>, n: nat, token: Token)
    requires Run(run) && 0 < n < |run| && Unregister(run[n - 1], run[n], token)
    ensures var s, u := run[n - 1], run[n];
      && s.owners[token].id in s.active && s.active[s.owners[token].id] == token
      && u.active == s.active - {s.owners[token].id}
  {
    PrefixRuns(run, n);
    var before := run[..n];
    RunsKeepInv(before);
    assert before[|before| - 1] == run[n - 1];
    RemovesItsOwn(run[n - 1], token);
  }

  ghost predicate RunTo(run: seq<State>, s: State) {
    Run(run) && run[|run| - 1] == s
  }

  /** Some interleaving leads to this state. */
  ghost predicate Reachable(s: State) {
    exists run: seq<State> :: RunTo(run, s)
  }

  lemma ReachableOwners(s: State)
    requires Reachable(s)
    ensures OwnersOk(s) && ActiveOk(s)
  {
    var run: seq<State> :| RunTo(run, s);
    RunsKeepInv(run);
  }

  /** `token` belongs to the registration that owns `id`. */
  predicate OwnsId(s: State, token: Token, id: Id) {
    Owns(s, token) && s.owners[token].id == id
  }

  lemma OwnsActive(s: State, token: Token, id: Id)
    requires OwnersOk(s) && ActiveOk(s)
    ensures OwnsId(s, token, id) <==> id in s.active && s.active[id] == token
  {
    if token in s.owners {
      assert OwnerOk(s, token);
    }
  }

  /** What cancelling an id does to one token. */
  ghost predicate CancelEffect(s: State, u: State, id: Id, hit: bool, token: Token) {
    && (OwnsId(s, token, id) ==> token in u.cancelled && (hit <==> token !in s.cancelled))
    && (token in u.cancelled && token !in s.cancelled ==> hit && OwnsId(s, token, id))
  }

  lemma CancelStepReaches(s: State, u: State, id: Id, hit: bool, token: Token)
    requires OwnersOk(s) && ActiveOk(s) && Cancel(s, u, id, hit)
    ensures CancelEffect(s, u, id, hit, token)
    ensures hit ==> exists owner :: OwnsId(s, owner, id) && owner !in s.cancelled
  {
    OwnsActive(s, token, id);
    if hit {
      OwnsActive(s, s.active[id], id);
    }
  }

  /**
   Cancelling an id reaches the one registration that owns it and no other token;
   the answer is true exactly if there is one and it was not cancelled before.
   */
  lemma CancelReachesOwner(s: State, u: State, id: Id, hit: bool, token: Token)
    requires Reachable(s) && Cancel(s, u, id, hit)
    ensures CancelEffect(s, u, id, hit, token)
    ensures hit ==> exists owner :: OwnsId(s, owner, id) && owner !in s.cancelled
  {
    ReachableOwners(s);
    CancelStepReaches(s, u, id, hit, token);
  }

  /** Thread `t` is refused for a reason: the session is closed, or the id it asks for has an owner. */
  ghost predicate RefusedFor(s: State, t: Thread) {
    s.closed || (t in s.calls && s.calls[t].Checked? && exists token :: OwnsId(s, token, s.calls[t].id))
  }

  lemma RefusedStep(s: State, u: State, t: Thread)
    requires t in u.calls && u.calls[t] == Refused
    requires OwnersOk(s) && ActiveOk(s) && CallStep(s, u, t)
    ensures RefusedFor(s, t)
  {
    if !s.closed {
      OwnsActive(s, s.active[s.calls[t].id], s.calls[t].id);
    }
  }

  /** A registration is refused only in a closed session or while its id has an owner. */
  lemma RefusedRightly(s: State, u: State, t: Thread)
    requires t in u.calls && u.calls[t] == Refused
    requires Reachable(s) && CallStep(s, u, t)
    ensures RefusedFor(s, t)
  {
    ReachableOwners(s);
    RefusedStep(s, u, t);
  }

  /** The id thread `t` asks for had no owner and now belongs to the token it is given. */
  ghost predicate GivenTo(s: State, u: State, t: Thread) {
    && t in s.calls && t in u.calls && s.calls[t].Checked? && u.calls[t] == Registered(s.calls[t].token)
    && OwnsId(u, s.calls[t].token, s.calls[t].id)
    && forall token :: !OwnsId(s, token, s.calls[t].id)
  }

  lemma RegisteredStep(s: State, u: State, t: Thread)
    requires t in u.calls && u.calls[t].Registered?
    requires OwnersOk(s) && ActiveOk(s) && CallStep(s, u, t)
    ensures GivenTo(s, u, t)
  {
    forall token ensures !OwnsId(s, token, s.calls[t].id) {
      OwnsActive(s, token, s.calls[t].id);
    }
  }

  /** A registration that succeeds owns its id, which nobody owned before. */
  lemma RegisteredRightly(s: State, u: State, t: Thread)
    requires t in u.calls && u.calls[t].Registered?
    requires Reachable(s) && CallStep(s, u, t)
    ensures GivenTo(s, u, t)
  {
    ReachableOwners(s);
    RegisteredStep(s, u, t);
  }

  /** Once the close call that won the swap has returned, every live token is cancelled. */
  lemma ClosedCancelsAll(run: seq<State>, t: Thread, token: Token)
    requires Run(run) && t in run[|run| - 1].calls && run[|run| - 1].calls[t] == Closed(true)
    requires Owns(run[|run| - 1], token)
    ensures token in run[|run| - 1].cancelled
  {
    RunsKeepInv(run);
    var s := run[|run| - 1];
    assert OwnerOk(s, token);
    assert s.active[s.owners[token].id] in s.active.Values;
  }

  /** From the moment the winner holds the lock no registration succeeds any more. */
  lemma SweepEndsRegistration(s: State, u: State, t: Thread)
    requires CloseOk(s) && Step(s, u) && t in s.calls && Sweeps(s.calls[t])
    ensures u.owners.Keys == s.owners.Keys
    ensures t in u.calls && Sweeps(u.calls[t])
  {
    if t': Thread, call: Call :| Begin(s, u, t', call) {
    } else if t': Thread :| CallStep(s, u, t') {
      SweepCall(s, u, t, t');
    } else if id: Id, hit: bool :| Cancel(s, u, id, hit) {
    } else if token: Token, next: Owner, drops: bool :| OwnerStep(s, u, token, next, drops) {
    } else {
      var token: Token :| Unregister(s, u, token);
    }
  }

  lemma SweepCall(s: State, u: State, t: Thread, t': Thread)
    requires CloseOk(s) && CallStep(s, u, t') && t in s.calls && Sweeps(s.calls[t])
    ensures u.owners == s.owners && t in u.calls && Sweeps(u.calls[t])
  {
    assert !s.calls[t'].Checked?;
  }

  lemma SweepInRun(run: seq<State>, n: nat, t: Thread)
    requires Run(run) && 0 < n < |run| && t in run[n - 1].calls && Sweeps(run[n - 1].calls[t])
    ensures run[n].owners.Keys == run[n - 1].owners.Keys
    ensures t in run[n].calls && Sweeps(run[n].calls[t])
  {
    var before := run[..n];
    PrefixRuns(run, n);
    RunsKeepInv(before);
    assert before[|before| - 1] == run[n - 1];
    SweepEndsRegistration(run[n - 1], run[n], t);
  }

  /** ... and that stays so for the rest of the run. */
  lemma {:induction false} NoLaterRegistration(run: seq<State>, k: nat, n: nat, t: Thread)
    requires Run(run) && k <= n < |run| && t in run[k].calls && Sweeps(run[k].calls[t])
    ensures run[n].owners.Keys == run[k].owners.Keys
    ensures t in run[n].calls && Sweeps(run[n].calls[t])
    decreases n
  {
    if k < n {
      NoLaterRegistration(run, k, n - 1, t);
      SweepInRun(run, n, t);
    }
  }

  lemma PrefixRuns(run: seq<State>, n: nat)
    requires Run(run) && 1 <= n <= |run|
    ensures Run(run[..n]) && (n < |run| ==> Step(run[n - 1], run[n]))
  {
  }

  /**
   The promise is the winner's alone: a close call that lost the swap can return
   while a registered program is still not cancelled.
   */
  lemma LoserMayReturnEarly() returns (run: seq<State>, t: Thread, token: Token)
    ensures Run(run)
    ensures var s := run[|run| - 1]; t in s.calls && s.calls[t] == Closed(false) && Owns(s, token) && token !in s.cancelled
  {
    var s0 := START;
    var s1 := Move(s0, 0, Registering(7));
    var s2 := Move(s1, 0, Waiting(7, 0)).(nextToken := 1);
    var s3 := Move(s2, 0, Locked(7, 0)).(holder := Some(0));
    var s4 := Move(s3, 0, Checked(7, 0));
    var s5 := Move(s4, 0, Registered(0)).(
      holder := None, active := map[7 := 0], owners := map[0 := Owner(7, Held, true, 0)]);
    var s6 := Move(s5, 1, Closing);
    var s7 := Move(s6, 1, Swapped).(closed := true);
    var s8 := Move(s7, 2, Closing);
    var s9 := Move(s8, 2, Closed(false));
    assert Begin(s0, s1, 0, Registering(7));
    assert CallStep(s1, s2, 0);
    assert CallStep(s2, s3, 0);
    assert CallStep(s3, s4, 0);
    assert s4.active[7 := 0] == map[7 := 0];
    assert s4.owners[0 := Owner(7, Held, true, 0)] == map[0 := Owner(7, Held, true, 0)];
    assert CallStep(s4, s5, 0);
    assert Begin(s5, s6, 1, Closing);
    assert CallStep(s6, s7, 1);
    assert Begin(s7, s8, 2, Closing);
    assert CallStep(s8, s9, 2);
    run, t, token := [s0, s1, s2, s3, s4, s5, s6, s7, s8, s9], 2, 0;
  }
}

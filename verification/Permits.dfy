/**
 The permit authority: challenges wait in `pending` until a token for them is
 verified once, which moves their nonce to `used`; both tables forget what has
 expired. Clock readings are arguments, so they may go backwards. A challenge
 call draws its number outside the lock and stores its challenge later under
 it, so other calls may come in between. The keyed hashes are function values.
 */
module Permits {
  import opened Bytes
  import opened Graphs
  import opened Wrappers

  const ALL_CAPABILITIES: nat := 15
  const MAX_PENDING: nat := 4096
  const MAX_USED: nat := 4096

  /** A digest, as the number its bytes spell: 0 is the all-zero digest. */
  type Digest = nat

  datatype Challenge = Challenge(
    session: nat, capabilities: nat, expires: nat, binding: Digest, policy: Digest, action: Digest, nonce: Digest)

  datatype Token = Token(nonce: Digest, mac: Digest)

  /** What a nonce is hashed from, besides the session binding. */
  datatype Material = Material(session: nat, capabilities: nat, expires: nat, number: nat, action: Digest)

  /** A challenge call that has drawn its number but not yet taken the lock. */
  datatype Draft = Draft(material: Material, now: nat)

  datatype Error = InvalidPolicy | InvalidAuthority | Clock | NonceExhausted | InvalidValue | InvalidChallenge | InvalidToken | Replay | Capacity

  datatype Result<T> = Ok(value: T) | Err(error: Error)

  /** What an authority is set up with; `nonceOf` and `mac` hash with its secret key. */
  datatype Keys = Keys(binding: Digest, policy: Digest, nonceOf: Material -> Digest, mac: Challenge -> Digest)

  /** Different 64-bit numbers give different nonces. */
  ghost predicate Injective(keys: Keys) {
    forall m: Material, m': Material :: m.number <= U64_MAX && m'.number <= U64_MAX && keys.nonceOf(m) == keys.nonceOf(m') ==>
      m.number == m'.number
  }

  const NONCE_LIMIT: nat := 0x1_0000_0000_0000_0000_0000_0000_0000_0000

  /** Nonces of sixteen bytes can meet that. */
  lemma SixteenBytesSuffice(keys: Keys) returns (r: Keys)
    ensures r == keys.(nonceOf := r.nonceOf) && Injective(r) && forall m :: 0 < r.nonceOf(m) < NONCE_LIMIT
  {
    r := keys.(nonceOf := (m: Material) => if m.number <= U64_MAX then m.number + 1 else 1);
  }

  /** No two of these challenges share a nonce. */
  ghost predicate NoCollision(made: seq<Challenge>) {
    forall i, j :: 0 <= i < j < |made| ==> made[i].nonce != made[j].nonce
  }

  predicate WellFormed(c: Challenge) {
    && c.session != 0
    && 0 < c.capabilities <= 15
    && c.expires != 0
    && c.binding != 0 && c.policy != 0 && c.action != 0 && c.nonce != 0
  }

  function Build(m: Material, keys: Keys): (c: Challenge) {
    Challenge(m.session, m.capabilities, m.expires, keys.binding, keys.policy, m.action, keys.nonceOf(m))
  }

  function LivePending(pending: map<Digest, Challenge>, now: nat): (r: map<Digest, Challenge>) {
    map x | x in pending && pending[x].expires > now :: pending[x]
  }

  function LiveUsed(used: map<Digest, nat>, now: nat): (r: map<Digest, nat>) {
    map x | x in used && used[x] > now :: used[x]
  }

  /** Forgetting what has expired only shrinks the tables. */
  lemma PurgeShrinks(pending: map<Digest, Challenge>, used: map<Digest, nat>, now: nat)
    ensures |LivePending(pending, now)| <= |pending| && |LiveUsed(used, now)| <= |used|
  {
    SubsetSize(LivePending(pending, now).Keys, pending.Keys);
    SubsetSize(LiveUsed(used, now).Keys, used.Keys);
  }

  // ---- History ----

  /** The challenge number `creation` was accepted for this session, these capabilities and this action. */
  datatype Acceptance = Acceptance(creation: nat, session: nat, capabilities: nat, action: Digest)

  /**
   `open` are the numbers drawn by calls still under way; `made[i]` is the i-th
   challenge ever stored and `numbers[i]` its number; `accepted` are the
   successful verifications in order. `from` and `spentBy` give the latest creation
   and the latest acceptance of a nonce.
   */
  datatype History = History(
    open: set<nat>, made: seq<Challenge>, numbers: seq<nat>, accepted: seq<Acceptance>,
    from: map<Digest, nat>, spentBy: map<Digest, nat>)

  /** Every number is drawn once and used for at most one challenge. */
  ghost predicate NumbersOk(h: History, counter: nat) {
    && |h.numbers| == |h.made|
    && (forall n :: n in h.open ==> n < counter)
    && (forall i :: 0 <= i < |h.numbers| ==> h.numbers[i] < counter && h.numbers[i] !in h.open)
    && (forall i, j :: 0 <= i < j < |h.numbers| ==> h.numbers[i] != h.numbers[j])
  }

  /** The challenge `c` was built by this authority from the number `n`. */
  ghost predicate BuiltFrom(c: Challenge, n: nat, keys: Keys) {
    && WellFormed(c)
    && c == Build(Material(c.session, c.capabilities, c.expires, n, c.action), keys)
  }

  ghost predicate MadeOk(h: History, keys: Keys) {
    |h.numbers| == |h.made| &&
    forall i :: 0 <= i < |h.made| ==> BuiltFrom(h.made[i], h.numbers[i], keys)
  }

  /** Every pending entry is a creation, not yet accepted. */
  ghost predicate PendingOk(h: History, pending: map<Digest, Challenge>) {
    forall x :: x in pending ==>
      && x in h.from && h.from[x] < |h.made| && pending[x] == h.made[h.from[x]] && pending[x].nonce == x
      && Untouched(h, h.from[x])
  }

  ghost predicate Untouched(h: History, creation: nat) {
    forall i :: 0 <= i < |h.accepted| ==> h.accepted[i].creation != creation
  }

  /** `a` names a stored challenge and repeats its session, capabilities and action. */
  predicate Matches(a: Acceptance, made: seq<Challenge>) {
    && a.creation < |made|
    && made[a.creation].session == a.session
    && made[a.creation].capabilities == a.capabilities
    && made[a.creation].action == a.action
  }

  /** Every acceptance is of its own creation. */
  ghost predicate AcceptedOk(h: History) {
    && (forall i :: 0 <= i < |h.accepted| ==> Matches(h.accepted[i], h.made))
    && (forall i, j :: 0 <= i < j < |h.accepted| ==> h.accepted[i].creation != h.accepted[j].creation)
  }

  /** Acceptance number `i` was of the nonce `x`. */
  predicate AcceptedAs(h: History, i: nat, x: Digest) {
    i < |h.accepted| && h.accepted[i].creation < |h.made| && h.made[h.accepted[i].creation].nonce == x
  }

  ghost predicate UsedOk(h: History, used: map<Digest, nat>) {
    forall x :: x in used ==> x in h.spentBy && AcceptedAs(h, h.spentBy[x], x)
  }

  ghost predicate Inv(keys: Keys, counter: nat, pending: map<Digest, Challenge>, used: map<Digest, nat>, h: History) {
    && counter <= U64_MAX && |pending| <= MAX_PENDING && |used| <= MAX_USED
    && NumbersOk(h, counter) && MadeOk(h, keys) && PendingOk(h, pending) && AcceptedOk(h) && UsedOk(h, used)
  }

  // ---- What the history means when nonces do not collide ----

  /** Whatever was stored under an injective nonce hash has no collision. */
  lemma InjectiveMeansNoCollision(
    keys: Keys, counter: nat, pending: map<Digest, Challenge>, used: map<Digest, nat>, h: History)
    requires Inv(keys, counter, pending, used, h) && Injective(keys)
    ensures NoCollision(h.made)
  {
    forall i, j | 0 <= i < j < |h.made| ensures h.made[i].nonce != h.made[j].nonce {
      assert BuiltFrom(h.made[i], h.numbers[i], keys);
      assert BuiltFrom(h.made[j], h.numbers[j], keys);
      assert h.numbers[i] != h.numbers[j];
    }
  }

  /** Without a collision among the stored challenges, no nonce is accepted twice. */
  lemma OncePerNonce(h: History, i: nat, j: nat, x: Digest)
    requires AcceptedOk(h) && NoCollision(h.made)
    requires AcceptedAs(h, i, x) && AcceptedAs(h, j, x)
    ensures i == j
  {
    var a, b := h.accepted[i].creation, h.accepted[j].creation;
    assert a == b;
  }

  /** Without a collision among the stored challenges, a nonce is pending or used, never both. */
  lemma TablesDisjoint(keys: Keys, counter: nat, pending: map<Digest, Challenge>, used: map<Digest, nat>, h: History)
    requires Inv(keys, counter, pending, used, h) && NoCollision(h.made)
    ensures pending.Keys !! used.Keys
  {
    forall x | x in used ensures x !in pending {
      assert AcceptedAs(h, h.spentBy[x], x);
    }
  }

  // ---- How the history grows ----

  lemma PurgeKeeps(keys: Keys, counter: nat, pending: map<Digest, Challenge>, used: map<Digest, nat>, h: History, now: nat)
    requires Inv(keys, counter, pending, used, h)
    ensures Inv(keys, counter, LivePending(pending, now), LiveUsed(used, now), h)
  {
    PurgeShrinks(pending, used, now);
  }

  lemma DrawKeeps(keys: Keys, counter: nat, pending: map<Digest, Challenge>, used: map<Digest, nat>, h: History)
    requires Inv(keys, counter, pending, used, h) && counter < U64_MAX
    ensures Inv(keys, counter + 1, pending, used, h.(open := h.open + {counter}))
  {
    TablesKeep(h, h.(open := h.open + {counter}), pending, used);
  }

  lemma AbandonKeeps(
    keys: Keys, counter: nat, pending: map<Digest, Challenge>, used: map<Digest, nat>, h: History, number: nat)
    requires Inv(keys, counter, pending, used, h)
    ensures Inv(keys, counter, pending, used, h.(open := h.open - {number}))
  {
    TablesKeep(h, h.(open := h.open - {number}), pending, used);
  }

  /** The tables do not look at the numbers under way. */
  lemma TablesKeep(h: History, g: History, pending: map<Digest, Challenge>, used: map<Digest, nat>)
    requires PendingOk(h, pending) && AcceptedOk(h) && UsedOk(h, used) && g == h.(open := g.open)
    ensures PendingOk(g, pending) && AcceptedOk(g) && UsedOk(g, used)
  {
    forall x | x in pending ensures Untouched(g, g.from[x]) {
      assert Untouched(h, h.from[x]);
    }
    forall x | x in used ensures AcceptedAs(g, g.spentBy[x], x) {
      assert AcceptedAs(h, h.spentBy[x], x);
    }
  }

  function Stored(h: History, c: Challenge, number: nat): (r: History) {
    h.(open := h.open - {number}, made := h.made + [c], numbers := h.numbers + [number],
       from := h.from[c.nonce := |h.made|])
  }

  lemma StoreKeepsMade(
    h: History, c: Challenge, number: nat, counter: nat, keys: Keys)
    requires NumbersOk(h, counter) && MadeOk(h, keys)
    requires number in h.open && BuiltFrom(c, number, keys)
    ensures NumbersOk(Stored(h, c, number), counter) && MadeOk(Stored(h, c, number), keys)
  {
  }

  lemma StoreKeepsTables(h: History, c: Challenge, number: nat, pending: map<Digest, Challenge>, used: map<Digest, nat>)
    requires PendingOk(h, pending) && AcceptedOk(h) && UsedOk(h, used)
    ensures var g := Stored(h, c, number); PendingOk(g, pending[c.nonce := c]) && AcceptedOk(g) && UsedOk(g, used)
  {
    var g := Stored(h, c, number);
    assert Untouched(g, |h.made|);
    forall x | x in pending ensures Untouched(g, h.from[x]) {
      assert Untouched(h, h.from[x]);
    }
  }

  lemma StoreKeeps(
    keys: Keys, counter: nat, pending: map<Digest, Challenge>, used: map<Digest, nat>, h: History, m: Material)
    requires Inv(keys, counter, pending, used, h)
    requires |pending| < MAX_PENDING && m.number in h.open && WellFormed(Build(m, keys))
    ensures var c := Build(m, keys); Inv(keys, counter, pending[c.nonce := c], used, Stored(h, c, m.number))
  {
    var c := Build(m, keys);
    StoreKeepsMade(h, c, m.number, counter, keys);
    StoreKeepsTables(h, c, m.number, pending, used);
    KeysGrow(pending, c.nonce, c);
  }

  lemma KeysGrow<T>(table: map<Digest, T>, x: Digest, value: T)
    ensures |table[x := value]| <= |table| + 1
  {
    assert table[x := value].Keys == table.Keys + {x};
  }

  /** `nonce` names a creation. */
  predicate Known(h: History, nonce: Digest) {
    nonce in h.from && h.from[nonce] < |h.made|
  }

  function Spent(h: History, nonce: Digest): (r: History) {
    if !Known(h, nonce) then h
    else var c := h.made[h.from[nonce]];
    h.(accepted := h.accepted + [Acceptance(h.from[nonce], c.session, c.capabilities, c.action)],
       spentBy := h.spentBy[nonce := |h.accepted|])
  }

  lemma SpendKeepsTables(h: History, nonce: Digest, pending: map<Digest, Challenge>, used: map<Digest, nat>, expires: nat)
    requires PendingOk(h, pending) && AcceptedOk(h) && UsedOk(h, used) && nonce in pending
    ensures var g := Spent(h, nonce);
      PendingOk(g, pending - {nonce}) && AcceptedOk(g) && UsedOk(g, used[nonce := expires])
  {
    var g := Spent(h, nonce);
    assert Untouched(h, h.from[nonce]);
    forall x | x in pending - {nonce} ensures Untouched(g, h.from[x]) {
      assert Untouched(h, h.from[x]) && h.made[h.from[x]].nonce == x;
    }
    assert AcceptedAs(g, |h.accepted|, nonce);
    forall x | x in used && x != nonce ensures AcceptedAs(g, h.spentBy[x], x) {
      assert AcceptedAs(h, h.spentBy[x], x);
    }
  }

  lemma SpendKeeps(
    keys: Keys, counter: nat, pending: map<Digest, Challenge>, used: map<Digest, nat>, h: History, nonce: Digest,
    rest: map<Digest, Challenge>, more: map<Digest, nat>)
    returns (spent: History)
    requires Inv(keys, counter, pending, used, h) && nonce in pending && |used| < MAX_USED
    requires rest == pending - {nonce} && more == used[nonce := pending[nonce].expires]
    ensures spent == Spent(h, nonce) && Inv(keys, counter, rest, more, spent)
  {
    var expires := pending[nonce].expires;
    spent := Spent(h, nonce);
    SpendKeepsTables(h, nonce, pending, used, expires);
    KeysGrow(used, nonce, expires);
    SubsetSize((pending - {nonce}).Keys, pending.Keys);
  }

  // ---- The authority ----

  class PermitAuthority {
    const keys: Keys
    var counter: nat
    var pending: map<Digest, Challenge>
    var used: map<Digest, nat>
    ghost var history: History

    ghost predicate Valid()
      reads this
    {
      Inv(keys, counter, pending, used, history)
    }

    constructor (keys: Keys)
      ensures Valid() && this.keys == keys
      ensures counter == 0 && pending == map[] && used == map[] && history == History({}, [], [], [], map[], map[])
    {
      this.keys := keys;
      counter, pending, used := 0, map[], map[];
      history := History({}, [], [], [], map[], map[]);
    }

    /** Forgets what expired by `now`. */
    method Purge(now: nat)
      requires Valid()
      modifies this`pending, this`used
      ensures Valid()
      ensures pending == LivePending(old(pending), now) && used == LiveUsed(old(used), now)
      ensures forall x :: x in pending <==> x in old(pending) && old(pending)[x].expires > now
      ensures forall x :: x in pending ==> pending[x] == old(pending)[x]
      ensures forall x :: x in used <==> x in old(used) && old(used)[x] > now
      ensures forall x :: x in used ==> used[x] == old(used)[x]
    {
      PurgeKeeps(keys, counter, pending, used, history, now);
      pending := LivePending(pending, now);
      used := LiveUsed(used, now);
    }

    /** The part of a challenge call before the lock: its expiry and its own number. */
    method Begin(session: nat, capabilities: nat, action: Digest, ttl: nat, now: nat) returns (r: Result<Draft>)
      requires Valid()
      modifies this`counter, this`history
      ensures Valid()
      ensures r == Err(Clock) <==> now + ttl > U64_MAX
      ensures r == Err(NonceExhausted) <==> now + ttl <= U64_MAX && old(counter) == U64_MAX
      ensures r.Err? ==> counter == old(counter) && history == old(history) && (r.error.Clock? || r.error.NonceExhausted?)
      ensures r.Ok? ==> r.value == Draft(Material(session, capabilities, now + ttl, old(counter), action), now)
      ensures r.Ok? ==> counter == old(counter) + 1 && old(counter) !in old(history.open)
      ensures r.Ok? ==> history == old(history).(open := old(history.open) + {old(counter)})
    {
      if ttl > U64_MAX || now + ttl > U64_MAX {
        return Err(Clock);
      }
      if counter == U64_MAX {
        return Err(NonceExhausted);
      }
      r := Ok(Draft(Material(session, capabilities, now + ttl, counter, action), now));
      DrawKeeps(keys, counter, pending, used, history);
      history := history.(open := history.open + {counter});
      counter := counter + 1;
    }

    /** The part under the lock: store the challenge, unless it is malformed, the table is full or the nonce is taken. */
    method Admit(draft: Draft) returns (r: Result<Challenge>)
      requires Valid() && draft.material.number in history.open
      modifies this`pending, this`used, this`history
      ensures Valid()
      ensures history.open == old(history.open) - {draft.material.number} && history.accepted == old(history.accepted)
      ensures var c := Build(draft.material, keys);
        && (r == Err(InvalidValue) <==> !WellFormed(c))
        && (r == Err(Capacity) <==> WellFormed(c) && |LivePending(old(pending), draft.now)| >= 4096)
        && (r.Err? ==> r.error.InvalidValue? || r.error.Capacity? || (r.error.InvalidChallenge? && c.nonce in LivePending(old(pending), draft.now)))
        && (r.Err? ==> history.made == old(history.made))
        && (r.Ok? ==> r.value == c && c.nonce !in LivePending(old(pending), draft.now))
        && (r.Ok? ==> pending == LivePending(old(pending), draft.now)[c.nonce := c])
        && (r.Ok? ==> history.made == old(history.made) + [c])
      ensures r == Err(InvalidValue) ==> pending == old(pending) && used == old(used)
      ensures r != Err(InvalidValue) ==> used == LiveUsed(old(used), draft.now)
      ensures r.Err? && r != Err(InvalidValue) ==> pending == LivePending(old(pending), draft.now)
      ensures Injective(keys) ==> r != Err(InvalidChallenge)
    {
      var m := draft.material;
      var c := Challenge(m.session, m.capabilities, m.expires, keys.binding, keys.policy, m.action, keys.nonceOf(m));
      if c.session == 0 || c.capabilities == 0 || c.capabilities > ALL_CAPABILITIES || c.expires == 0
         || c.binding == 0 || c.policy == 0 || c.action == 0 || c.nonce == 0
      {
        Abandon(m.number);
        return Err(InvalidValue);
      }
      Purge(draft.now);
      if |pending| >= MAX_PENDING {
        Abandon(m.number);
        return Err(Capacity);
      }
      if c.nonce in pending {
        NoClash(keys, counter, pending, used, history, draft.material);
        Abandon(m.number);
        return Err(InvalidChallenge);
      }
      Insert(m, c);
      return Ok(c);
    }

    /** The call that drew `number` ends without a challenge. */
    ghost method Abandon(number: nat)
      requires Valid()
      modifies this`history
      ensures Valid() && history == old(history).(open := old(history.open) - {number})
    {
      AbandonKeeps(keys, counter, pending, used, history, number);
      history := history.(open := history.open - {number});
    }

    /** Stores a challenge under its nonce. */
    method Insert(m: Material, c: Challenge)
      requires Valid() && c == Build(m, keys) && WellFormed(c) && |pending| < MAX_PENDING && m.number in history.open
      modifies this`pending, this`history
      ensures Valid() && pending == old(pending)[c.nonce := c] && history == Stored(old(history), c, m.number)
    {
      StoreKeeps(keys, counter, pending, used, history, m);
      history := Stored(history, c, m.number);
      pending := pending[c.nonce := c];
    }

    /** Signs a challenge that is pending here and has not expired. */
    method Issue(challenge: Challenge, now: nat) returns (r: Result<Token>)
      requires Valid()
      modifies this`pending, this`used
      ensures Valid()
      ensures r.Ok? <==> challenge.expires > now && challenge.nonce in old(pending) && old(pending)[challenge.nonce] == challenge
      ensures r.Ok? ==> r.value == Token(challenge.nonce, keys.mac(challenge))
      ensures r.Err? ==> r.error == InvalidChallenge
      ensures if challenge.binding == keys.binding && challenge.policy == keys.policy && challenge.expires > now
        then pending == LivePending(old(pending), now) && used == LiveUsed(old(used), now)
        else pending == old(pending) && used == old(used)
    {
      PendingIsOurs(keys, counter, pending, used, history, challenge.nonce);
      if challenge.binding != keys.binding || challenge.policy != keys.policy || challenge.expires <= now {
        return Err(InvalidChallenge);
      }
      Purge(now);
      if challenge.nonce !in pending || pending[challenge.nonce] != challenge {
        return Err(InvalidChallenge);
      }
      return Ok(Token(challenge.nonce, keys.mac(challenge)));
    }

    /** Moves a nonce from `pending` to `used`. */
    method Spend(nonce: Digest)
      requires Valid() && nonce in pending && |used| < MAX_USED
      modifies this`pending, this`used, this`history
      ensures Valid()
      ensures pending == old(pending) - {nonce} && used == old(used)[nonce := old(pending)[nonce].expires]
      ensures history == Spent(old(history), nonce)
    {
      var rest, more := pending - {nonce}, used[nonce := pending[nonce].expires];
      ghost var spent := SpendKeeps(keys, counter, pending, used, history, nonce, rest, more);
      Store(rest, more, spent);
    }

    method Store(pending: map<Digest, Challenge>, used: map<Digest, nat>, ghost history: History)
      requires Inv(keys, counter, pending, used, history)
      modifies this`pending, this`used, this`history
      ensures Valid() && this.pending == pending && this.used == used && this.history == history
    {
      this.pending, this.used, this.history := pending, used, history;
    }

    /** The checks of `Verify`, in order, on the purged tables. */
    method Judge(token: Token, session: nat, capabilities: nat, action: Digest, now: nat) returns (r: Result<()>)
      requires Valid()
      ensures r == Err(Replay) <==> token.nonce in used
      ensures r.Ok? || r == Err(Capacity) <==>
        token.nonce !in used && Redeems(token, session, capabilities, action, now, pending, keys)
      ensures r.Ok? ==> |used| < MAX_USED
      ensures r == Err(Capacity) ==> |used| >= MAX_USED
      ensures r.Err? ==> r.error.Replay? || r.error.Capacity? || r.error.InvalidToken?
    {
      if token.nonce in used {
        return Err(Replay);
      }
      if token.nonce !in pending {
        return Err(InvalidToken);
      }
      var challenge := pending[token.nonce];
      PendingIsOurs(keys, counter, pending, used, history, token.nonce);
      if challenge.session != session || challenge.capabilities != capabilities || challenge.binding != keys.binding
         || challenge.policy != keys.policy || challenge.action != action || challenge.expires <= now
      {
        return Err(InvalidToken);
      }
      if keys.mac(challenge) != token.mac {
        return Err(InvalidToken);
      }
      if |used| >= MAX_USED {
        return Err(Capacity);
      }
      return Ok(());
    }

    /** Accepts a token at most once, and only for what its challenge was created for. */
    method Verify(token: Token, session: nat, capabilities: nat, action: Digest, now: nat) returns (r: Result<()>)
      requires Valid()
      modifies this`pending, this`used, this`history
      ensures Valid()
      ensures r == Err(Replay) <==> token.nonce in old(used) && old(used)[token.nonce] > now
      ensures r.Ok? <==>
        && Redeems(token, session, capabilities, action, now, old(pending), keys)
        && !(token.nonce in old(used) && old(used)[token.nonce] > now)
        && |LiveUsed(old(used), now)| < 4096
      ensures r == Err(Capacity) <==>
        && Redeems(token, session, capabilities, action, now, old(pending), keys)
        && !(token.nonce in old(used) && old(used)[token.nonce] > now)
        && |LiveUsed(old(used), now)| >= 4096
      ensures r.Err? ==> r.error.Replay? || r.error.Capacity? || r.error.InvalidToken?
      ensures history.made == old(history.made) && history.open == old(history.open)
      ensures r.Err? ==> history == old(history)
      ensures r.Err? ==> pending == LivePending(old(pending), now) && used == LiveUsed(old(used), now)
      ensures r.Ok? ==> pending == LivePending(old(pending), now) - {token.nonce}
      ensures r.Ok? ==> used == LiveUsed(old(used), now)[token.nonce := old(pending)[token.nonce].expires]
      ensures r.Ok? ==> history == Spent(old(history), token.nonce)
    {
      Purge(now);
      RedeemsLive(token, session, capabilities, action, now, old(pending), keys);
      r := Judge(token, session, capabilities, action, now);
      if r.Ok? {
        Spend(token.nonce);
      }
    }
  }

  const MAX_POLICY_ID_BYTES: nat := 128

  /** A policy name: not empty, not too long, without NUL, LF and CR. */
  predicate ValidPolicyId(id: Text) {
    1 <= |id| <= 128 && forall i :: 0 <= i < |id| ==> id[i] != 0 && id[i] != 10 && id[i] != 13
  }

  /** The keyed hashes as functions of the secret key, and the policy digest. */
  datatype Hashes = Hashes(nonceOf: (Digest, Material) -> Digest, mac: (Digest, Challenge) -> Digest, policy: Text -> Digest)

  /** `PermitAuthority::new`. */
  method NewAuthority(hashes: Hashes, key: Digest, binding: Digest, policyId: Text) returns (r: Result<PermitAuthority>)
    ensures r.Ok? <==> ValidPolicyId(policyId) && key != 0 && binding != 0
    ensures r.Err? ==> r.error == if ValidPolicyId(policyId) then InvalidAuthority else InvalidPolicy
    ensures r.Ok? ==> fresh(r.value) && r.value.Valid() && r.value.pending == map[] && r.value.used == map[]
    ensures r.Ok? ==> r.value.keys.binding == binding && r.value.keys.policy == hashes.policy(policyId)
  {
    if policyId == [] || |policyId| > MAX_POLICY_ID_BYTES || 0 in policyId || LF in policyId || CR in policyId {
      return Err(InvalidPolicy);
    }
    if key == 0 || binding == 0 {
      return Err(InvalidAuthority);
    }
    var keys := Keys(binding, hashes.policy(policyId), m => hashes.nonceOf(key, m), c => hashes.mac(key, c));
    var authority := new PermitAuthority(keys);
    return Ok(authority);
  }

  /** The token answers an unexpired pending challenge for exactly this session, these capabilities and this action. */
  predicate Redeems(
    token: Token, session: nat, capabilities: nat, action: Digest, now: nat, pending: map<Digest, Challenge>, keys: Keys)
  {
    token.nonce in pending &&
    var c := pending[token.nonce];
    && c.expires > now && token.mac == keys.mac(c)
    && c.session == session && c.capabilities == capabilities && c.action == action
  }

  /** Whatever is pending carries this authority's binding and policy. */
  lemma PendingIsOurs(
    keys: Keys, counter: nat, pending: map<Digest, Challenge>, used: map<Digest, nat>, h: History, x: Digest)
    requires Inv(keys, counter, pending, used, h)
    ensures x in pending ==> pending[x].binding == keys.binding && pending[x].policy == keys.policy
  {
    if x in pending {
      assert BuiltFrom(h.made[h.from[x]], h.numbers[h.from[x]], keys);
    }
  }

  /** Purging at `now` changes nothing about what can be redeemed at `now`. */
  lemma RedeemsLive(
    token: Token, session: nat, capabilities: nat, action: Digest, now: nat, pending: map<Digest, Challenge>, keys: Keys)
    ensures Redeems(token, session, capabilities, action, now, LivePending(pending, now), keys)
       <==> Redeems(token, session, capabilities, action, now, pending, keys)
  {
  }

  /** A number still under way never meets its own nonce in the table, unless nonces collide. */
  lemma NoClash(
    keys: Keys, counter: nat, pending: map<Digest, Challenge>, used: map<Digest, nat>, h: History, m: Material)
    requires Inv(keys, counter, pending, used, h) && m.number in h.open && keys.nonceOf(m) in pending
    ensures !Injective(keys)
  {
    var i := h.from[keys.nonceOf(m)];
    var c := h.made[i];
    assert BuiltFrom(c, h.numbers[i], keys);
    var m' := Material(c.session, c.capabilities, c.expires, h.numbers[i], c.action);
    assert keys.nonceOf(m) == keys.nonceOf(m') && m.number != m'.number;
  }

  // ---- Whole runs ----

  /** One call, or one half of a challenge call, with the clock it reads. */
  datatype Op =
    | Start(session: nat, capabilities: nat, action: Digest, ttl: nat, now: nat)
    | Finish(which: nat)
    | Sign(challenge: Challenge, now: nat)
    | Redeem(token: Token, session: nat, capabilities: nat, action: Digest, now: nat)

  /** The challenge `c` was created for what this request asks, had not expired, and is what the token signs. */
  predicate CreatedFor(c: Challenge, op: Op, keys: Keys)
    requires op.Redeem?
  {
    && c.nonce == op.token.nonce && c.session == op.session && c.capabilities == op.capabilities && c.action == op.action
    && op.token.mac == keys.mac(c) && op.now < c.expires
  }

  /** Some stored challenge was created for what this request asks. */
  ghost predicate Backed(op: Op, made: seq<Challenge>, keys: Keys) {
    op.Redeem? && exists c :: c in made && CreatedFor(c, op, keys)
  }

  /** The log of accepted requests follows the history. */
  ghost predicate Logged(h: History, log: seq<Op>, keys: Keys) {
    && |log| == |h.accepted|
    && forall i :: 0 <= i < |log| ==>
      log[i].Redeem? && h.accepted[i].creation < |h.made| && CreatedFor(h.made[h.accepted[i].creation], log[i], keys)
  }

  lemma LogRedeemed(h: History, log: seq<Op>, op: Op, pending: map<Digest, Challenge>, keys: Keys)
    requires Logged(h, log, keys) && PendingOk(h, pending) && op.Redeem?
    requires Redeems(op.token, op.session, op.capabilities, op.action, op.now, pending, keys)
    ensures Logged(Spent(h, op.token.nonce), log + [op], keys)
  {
  }

  lemma LogStored(h: History, g: History, log: seq<Op>, keys: Keys)
    requires Logged(h, log, keys) && h.made <= g.made && g.accepted == h.accepted
    ensures Logged(g, log, keys)
  {
  }

  /** What the log says about a run. */
  lemma LogIsSafe(
    keys: Keys, counter: nat, pending: map<Digest, Challenge>, used: map<Digest, nat>, h: History, log: seq<Op>)
    requires Inv(keys, counter, pending, used, h) && Logged(h, log, keys)
    ensures forall i :: 0 <= i < |log| ==> log[i].Redeem? && Backed(log[i], h.made, keys)
    ensures NoCollision(h.made) ==> forall i, j :: 0 <= i < j < |log| ==> log[i].token.nonce != log[j].token.nonce
  {
    forall i | 0 <= i < |log| ensures Backed(log[i], h.made, keys) {
      assert CreatedFor(h.made[h.accepted[i].creation], log[i], keys);
    }
    if NoCollision(h.made) {
      forall i, j | 0 <= i < j < |log| ensures log[i].token.nonce != log[j].token.nonce {
        if log[i].token.nonce == log[j].token.nonce {
          OncePerNonce(h, i, j, log[i].token.nonce);
        }
      }
    }
  }

  /** The calls under way hold different numbers, all of them open. */
  ghost predicate UnderWay(drafts: seq<Draft>, open: set<nat>) {
    && (forall i :: 0 <= i < |drafts| ==> drafts[i].material.number in open)
    && (forall i, j :: 0 <= i < j < |drafts| ==> drafts[i].material.number != drafts[j].material.number)
  }

  /**
   Any script of calls against a new authority, with any clock readings: every
   accepted request was created for its own session, capabilities and action,
   and unless two stored challenges share a nonce each nonce is accepted at most
   once. Under an injective nonce hash no two stored challenges do.
   */
  method Serve(keys: Keys, script: seq<Op>) returns (made: seq<Challenge>, log: seq<Op>)
    ensures forall i :: 0 <= i < |log| ==> log[i].Redeem? && log[i] in script && Backed(log[i], made, keys)
    ensures NoCollision(made) ==> forall i, j :: 0 <= i < j < |log| ==> log[i].token.nonce != log[j].token.nonce
    ensures Injective(keys) ==> NoCollision(made)
  {
    var authority := new PermitAuthority(keys);
    var drafts: seq<Draft> := [];
    made, log := [], [];
    for k := 0 to |script|
      invariant authority.Valid() && authority.keys == keys && fresh(authority)
      invariant made == authority.history.made && Logged(authority.history, log, authority.keys)
      invariant UnderWay(drafts, authority.history.open)
      invariant forall i :: 0 <= i < |log| ==> log[i] in script
    {
      match script[k]
      case Start(session, capabilities, action, ttl, now) =>
        drafts := StartCall(authority, drafts, log, session, capabilities, action, ttl, now);
      case Finish(which) =>
        if which < |drafts| {
          drafts, made := FinishCall(authority, drafts, made, log, which);
        }
      case Sign(challenge, now) =>
        var _ := authority.Issue(challenge, now);
      case Redeem(_, _, _, _, _) =>
        log := RedeemCall(authority, log, script[k]);
    }
    LogIsSafe(keys, authority.counter, authority.pending, authority.used, authority.history, log);
    CollisionFree(authority);
  }

  lemma DraftBegun(drafts: seq<Draft>, open: set<nat>, draft: Draft)
    requires UnderWay(drafts, open) && draft.material.number !in open
    ensures UnderWay(drafts + [draft], open + {draft.material.number})
  {
  }

  lemma DraftFinished(drafts: seq<Draft>, open: set<nat>, which: nat)
    requires UnderWay(drafts, open) && which < |drafts|
    ensures UnderWay(drafts[..which] + drafts[which + 1..], open - {drafts[which].material.number})
  {
    var rest := drafts[..which] + drafts[which + 1..];
    assert forall i :: 0 <= i < |rest| ==> rest[i] == drafts[if i < which then i else i + 1];
  }

  method StartCall(
    authority: PermitAuthority, drafts: seq<Draft>, ghost log: seq<Op>,
    session: nat, capabilities: nat, action: Digest, ttl: nat, now: nat) returns (rest: seq<Draft>)
    requires authority.Valid() && UnderWay(drafts, authority.history.open) && Logged(authority.history, log, authority.keys)
    modifies authority
    ensures authority.Valid() && UnderWay(rest, authority.history.open) && Logged(authority.history, log, authority.keys)
    ensures authority.history.made == old(authority.history.made)
  {
    var r := authority.Begin(session, capabilities, action, ttl, now);
    rest := if r.Ok? then drafts + [r.value] else drafts;
    if r.Ok? {
      DraftBegun(drafts, old(authority.history.open), r.value);
    }
    LogStored(old(authority.history), authority.history, log, authority.keys);
  }

  method FinishCall(
    authority: PermitAuthority, drafts: seq<Draft>, made: seq<Challenge>, ghost log: seq<Op>, which: nat)
    returns (rest: seq<Draft>, now: seq<Challenge>)
    requires authority.Valid() && UnderWay(drafts, authority.history.open) && Logged(authority.history, log, authority.keys)
    requires which < |drafts| && made == authority.history.made
    modifies authority
    ensures authority.Valid() && UnderWay(rest, authority.history.open) && Logged(authority.history, log, authority.keys)
    ensures now == authority.history.made
  {
    var r := authority.Admit(drafts[which]);
    rest := drafts[..which] + drafts[which + 1..];
    DraftFinished(drafts, old(authority.history.open), which);
    now := if r.Ok? then made + [r.value] else made;
    LogStored(old(authority.history), authority.history, log, authority.keys);
  }

  method RedeemCall(authority: PermitAuthority, log: seq<Op>, op: Op) returns (now: seq<Op>)
    requires authority.Valid() && Logged(authority.history, log, authority.keys) && op.Redeem?
    modifies authority
    ensures authority.Valid() && Logged(authority.history, now, authority.keys)
    ensures authority.history.made == old(authority.history.made) && authority.history.open == old(authority.history.open)
    ensures now == log || now == log + [op]
  {
    var r := authority.Verify(op.token, op.session, op.capabilities, op.action, op.now);
    if r.Ok? {
      LogRedeemed(old(authority.history), log, op, old(authority.pending), authority.keys);
    }
    now := if r.Ok? then log + [op] else log;
  }

  /**
   Issue, then verify, then verify again: a challenge that is pending and still
   live both times is signed and accepted, provided `used` has room; the second
   verification is refused whatever the clock says, and as a replay while the
   challenge would still be live.
   */
  method IssueThenVerify(authority: PermitAuthority, c: Challenge, signed: nat, first: nat, second: nat)
    returns (token: Result<Token>, accepted: bool, again: Result<()>)
    requires authority.Valid() && c.nonce in authority.pending && authority.pending[c.nonce] == c
    modifies authority
    ensures authority.Valid()
    ensures token.Ok? <==> c.expires > signed
    ensures NoCollision(old(authority.history.made)) && token.Ok? && |LiveUsed(LiveUsed(old(authority.used), signed), first)| < 4096 ==>
      (accepted <==> c.expires > first)
    ensures accepted ==> again == Err(if second < c.expires then Replay else InvalidToken)
  {
    TablesDisjointIf(authority);
    accepted, again := false, Err(InvalidToken);
    token := authority.Issue(c, signed);
    if token.Ok? {
      var r := authority.Verify(token.value, c.session, c.capabilities, c.action, first);
      accepted := r.Ok?;
      again := authority.Verify(token.value, c.session, c.capabilities, c.action, second);
    }
  }

  lemma CollisionFree(authority: PermitAuthority)
    requires authority.Valid()
    ensures Injective(authority.keys) ==> NoCollision(authority.history.made)
  {
    if Injective(authority.keys) {
      InjectiveMeansNoCollision(
        authority.keys, authority.counter, authority.pending, authority.used, authority.history);
    }
  }

  lemma TablesDisjointIf(authority: PermitAuthority)
    requires authority.Valid()
    ensures NoCollision(authority.history.made) ==> authority.pending.Keys !! authority.used.Keys
  {
    if NoCollision(authority.history.made) {
      TablesDisjoint(authority.keys, authority.counter, authority.pending, authority.used, authority.history);
    }
  }
}

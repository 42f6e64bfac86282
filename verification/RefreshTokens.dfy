/**
  Single-use refresh tokens: the swept dictionary, the history it must answer
  for, and the sign-in, refresh and logout routes that rotate tokens.
 */
module RefreshTokens {
  import opened Wrappers
  import opened Seqs

  datatype Owner = Owner(userId: string, tenantId: string)

  /** A stored record; it is gone from its expiry instant on. */
  datatype Entry = Entry(owner: Owner, expires: real)

  type Entries = map<string, Entry>

  /** The hash under which a token is stored; no two tokens share one. */
  type Hasher = string -> string

  ghost predicate Injective(h: Hasher) {
    forall s, t :: h(s) == h(t) ==> s == t
  }

  // ------------------------------------------------------- swept dictionary

  function Swept(es: Entries, now: real): Entries {
    map k | k in es && now < es[k].expires :: es[k]
  }

  function Expiry(now: real, ttl: int): real {
    now + (if ttl < 0 then 0 else ttl) as real
  }

  function Stored(es: Entries, k: string, owner: Owner, ttl: int, now: real): Entries {
    Swept(es[k := Entry(owner, Expiry(now, ttl))], now)
  }

  function Consumed(es: Entries, k: string, now: real): (Entries, Option<Owner>) {
    var swept := Swept(es, now);
    (swept - {k}, if k in swept then Some(swept[k].owner) else None)
  }

  /** The two backends. */
  datatype Kind = Memory | Redis

  function StoreIn(kind: Kind, es: Entries, k: string, owner: Owner, ttl: int, now: real): Entries {
    match kind
    case Memory => Stored(es, k, owner, ttl, now)
    case Redis => if ttl <= 0 then es else es[k := Entry(owner, Expiry(now, ttl))]
  }

  function TakeFrom(kind: Kind, es: Entries, k: string, now: real): (Entries, Option<Owner>) {
    match kind
    case Memory => Consumed(es, k, now)
    case Redis => (es - {k}, Read(es, k, now))
  }

  function Read(es: Entries, k: string, now: real): Option<Owner> {
    if k in es && now < es[k].expires then Some(es[k].owner) else None
  }

  datatype Op =
    | Store(key: string, owner: Owner, ttl: int, at: real)
    | Consume(key: string, at: real)
    | Discard(key: string, at: real)

  ghost predicate ClockRuns(ops: seq<Op>) {
    forall i, j :: 0 <= i <= j < |ops| ==> ops[i].at <= ops[j].at
  }

  function MemoryAfter(ops: seq<Op>): Entries {
    if ops == [] then map[]
    else
      var es := MemoryAfter(ops[..|ops| - 1]);
      match ops[|ops| - 1]
      case Store(k, owner, ttl, at) => Stored(es, k, owner, ttl, at)
      case Consume(k, at) => Consumed(es, k, at).0
      case Discard(k, _) => es - {k}
  }

  /** SET with an expiry, GETDEL and DEL; a lifetime of zero or less is not stored at all. */
  function RedisStepped(es: Entries, op: Op): Entries {
    match op
    case Store(k, owner, ttl, at) => StoreIn(Redis, es, k, owner, ttl, at)
    case Consume(k, at) => TakeFrom(Redis, es, k, at).0
    case Discard(k, _) => es - {k}
  }

  function RedisAfter(ops: seq<Op>): Entries {
    if ops == [] then map[] else RedisStepped(RedisAfter(ops[..|ops| - 1]), ops[|ops| - 1])
  }

  /** What a key is worth at an instant: its last operation decides, nothing is ever swept. */
  function Worth(ops: seq<Op>, k: string, now: real): Option<Owner> {
    if ops == [] then None
    else
      var op := ops[|ops| - 1];
      if op.key != k then Worth(ops[..|ops| - 1], k, now)
      else if op.Store? && now < Expiry(op.at, op.ttl) then Some(op.owner)
      else None
  }

  /** Sweeping never changes an answer: the dictionary agrees with the unswept history. */
  lemma {:induction false} SweptAnswersLikeHistory(ops: seq<Op>, k: string, now: real)
    requires ClockRuns(ops) && (ops != [] ==> ops[|ops| - 1].at <= now)
    ensures Consumed(MemoryAfter(ops), k, now).1 == Worth(ops, k, now)
    ensures Read(MemoryAfter(ops), k, now) == Worth(ops, k, now)
  {
    if ops != [] {
      assert |ops| > 1 ==> ops[|ops| - 2].at <= ops[|ops| - 1].at;
      SweptAnswersLikeHistory(ops[..|ops| - 1], k, now);
    }
  }

  /** The history without the stores that Redis drops because their lifetime is zero or less. */
  function Alive(ops: seq<Op>): seq<Op> {
    if ops == [] then []
    else
      var op := ops[|ops| - 1];
      if IsDead(op) then Alive(ops[..|ops| - 1]) else Alive(ops[..|ops| - 1]) + [op]
  }

  predicate IsDead(op: Op) {
    op.Store? && op.ttl <= 0
  }

  /** What one operation makes of the worth of a key. */
  function Then(op: Op, before: Option<Owner>, k: string, now: real): Option<Owner> {
    if op.key != k then before else if op.Store? && now < Expiry(op.at, op.ttl) then Some(op.owner) else None
  }

  lemma WorthSnoc(ops: seq<Op>, op: Op, k: string, now: real)
    ensures Worth(ops + [op], k, now) == Then(op, Worth(ops, k, now), k, now)
  {
    assert (ops + [op])[..|ops|] == ops;
  }

  lemma RedisStep(es: Entries, op: Op, k: string, now: real)
    ensures Read(RedisStepped(es, op), k, now) == if IsDead(op) then Read(es, k, now) else Then(op, Read(es, k, now), k, now)
  {
  }

  lemma {:induction false} RedisDropsDeadStores(ops: seq<Op>, k: string, now: real)
    ensures Read(RedisAfter(ops), k, now) == Worth(Alive(ops), k, now)
  {
    hide Then, Read, RedisStepped;
    if ops != [] {
      var op, init := ops[|ops| - 1], ops[..|ops| - 1];
      RedisDropsDeadStores(init, k, now);
      RedisStep(RedisAfter(init), op, k, now);
      if !IsDead(op) { WorthSnoc(Alive(init), op, k, now); }
    } else {
      NothingRead(k, now);
    }
  }

  lemma NothingRead(k: string, now: real)
    ensures Read(map[], k, now) == None
  {
  }

  /** The last operation on a key is a store with a lifetime of zero or less. */
  predicate EndsDead(ops: seq<Op>, k: string) {
    ops != [] &&
    var op := ops[|ops| - 1];
    if op.key == k then IsDead(op) else EndsDead(ops[..|ops| - 1], k)
  }

  lemma {:induction false} DeadEndDecides(ops: seq<Op>, k: string, now: real)
    requires ClockRuns(ops) && (ops != [] ==> ops[|ops| - 1].at <= now)
    ensures if EndsDead(ops, k) then Worth(ops, k, now) == None else Worth(ops, k, now) == Worth(Alive(ops), k, now)
  {
    hide Worth, ClockRuns;
    if ops != [] {
      var op, init := ops[|ops| - 1], ops[..|ops| - 1];
      EarlierOps(ops);
      DeadEndDecides(init, k, now);
      WorthSnoc(init, op, k, now);
      assert init + [op] == ops;
      if !IsDead(op) { WorthSnoc(Alive(init), op, k, now); }
    } else {
      assert Alive(ops) == ops;
    }
  }

  lemma EarlierOps(ops: seq<Op>)
    requires ClockRuns(ops) && ops != []
    ensures ClockRuns(ops[..|ops| - 1]) && (|ops| > 1 ==> ops[..|ops| - 1][|ops| - 2].at <= ops[|ops| - 1].at)
  {
  }

  /** Redis answers like the history exactly unless a dead store came last and covers a live one. */
  lemma RedisAnswersLikeHistoryIff(ops: seq<Op>, k: string, now: real)
    requires ClockRuns(ops) && (ops != [] ==> ops[|ops| - 1].at <= now)
    ensures Read(RedisAfter(ops), k, now) == Worth(ops, k, now) <==> !(EndsDead(ops, k) && Worth(Alive(ops), k, now).Some?)
  {
    RedisDropsDeadStores(ops, k, now);
    DeadEndDecides(ops, k, now);
  }

  /** Storing a key again with no lifetime ends it in memory, while Redis goes on answering. */
  lemma DeadStoreCoversLive(k: string, owner: Owner)
    ensures var ops := [Store(k, owner, 10, 0.0), Store(k, owner, 0, 1.0)];
            && ClockRuns(ops)
            && Read(MemoryAfter(ops), k, 2.0) == None
            && Read(RedisAfter(ops), k, 2.0) == Some(owner)
  {
    var first := Store(k, owner, 10, 0.0);
    var ops := [first, Store(k, owner, 0, 1.0)];
    assert ops[..1] == [first] && [first][..0] == [];
    assert RedisAfter([first]) == map[k := Entry(owner, 10.0)];
    SweptAnswersLikeHistory(ops, k, 2.0);
  }

  class MemoryBackend {
    var entries: Entries

    constructor ()
      ensures entries == map[]
    {
      entries := map[];
    }

    method SweepLocked(now: real)
      modifies this
      ensures entries == Swept(old(entries), now)
    {
      var expired := set k | k in entries && entries[k].expires <= now;
      ghost var all := entries;
      while expired != {}
        invariant forall k :: k in expired ==> k in entries && k in all && all[k].expires <= now
        invariant forall k :: k in entries <==> k in all && (all[k].expires <= now ==> k in expired)
        invariant forall k :: k in entries ==> entries[k] == all[k]
        decreases |expired|
      {
        var k :| k in expired;
        entries := entries - {k};
        expired := expired - {k};
      }
    }

    method Put(k: string, owner: Owner, ttl: int, now: real)
      modifies this
      ensures entries == Stored(old(entries), k, owner, ttl, now)
    {
      entries := entries[k := Entry(owner, Expiry(now, ttl))];
      SweepLocked(now);
    }

    method Take(k: string, now: real) returns (owner: Option<Owner>)
      modifies this
      ensures (entries, owner) == Consumed(old(entries), k, now)
    {
      SweepLocked(now);
      owner := if k in entries then Some(entries[k].owner) else None;
      entries := entries - {k};
    }

    method Drop(k: string)
      modifies this
      ensures entries == old(entries) - {k}
    {
      entries := entries - {k};
    }
  }

  class RedisBackend {
    var entries: Entries

    constructor ()
      ensures entries == map[]
    {
      entries := map[];
    }

    method Put(k: string, owner: Owner, ttl: int, now: real)
      modifies this
      ensures entries == StoreIn(Redis, old(entries), k, owner, ttl, now)
    {
      if ttl <= 0 {
        return;
      }
      entries := entries[k := Entry(owner, now + ttl as real)];
    }

    /** GETDEL: a key past its expiry is not there any more. */
    method Take(k: string, now: real) returns (owner: Option<Owner>)
      modifies this
      ensures (entries, owner) == TakeFrom(Redis, old(entries), k, now)
    {
      owner := if k in entries && now < entries[k].expires then Some(entries[k].owner) else None;
      entries := entries - {k};
    }

    method Drop(k: string)
      modifies this
      ensures entries == old(entries) - {k}
    {
      entries := entries - {k};
    }
  }

  // ------------------------------------------------------- routes

  /** A completed sign-in, a refresh call, or a logout that carries a refresh token. */
  datatype Event =
    | SignIn(owner: Owner, minted: string, at: real)
    | Refresh(token: string, active: bool, minted: string, at: real)
    | Logout(token: string, at: real)

  /**
    The store together with what happened so far: the sign-in each issued token
    descends from, whose sign-in it was, and the tokens redeemed, in order.
   */
  datatype World = World(entries: Entries, lineage: map<string, nat>, owners: seq<Owner>, redeemed: seq<string>)

  const NEW_WORLD := World(map[], map[], [], [])

  function Next(h: Hasher, kind: Kind, ttl: int, w: World, e: Event): World {
    match e
    case SignIn(owner, minted, at) =>
      World(StoreIn(kind, w.entries, h(minted), owner, ttl, at), w.lineage[minted := |w.owners|], w.owners + [owner], w.redeemed)
    case Refresh(token, active, minted, at) =>
      if token == "" then w
      else
        var (es, owner) := TakeFrom(kind, w.entries, h(token), at);
        if owner.None? then w.(entries := es)
        else
          var w' := w.(entries := es, redeemed := w.redeemed + [token]);
          if !active || token !in w.lineage then w'
          else w'.(entries := StoreIn(kind, es, h(minted), owner.value, ttl, at), lineage := w.lineage[minted := w.lineage[token]])
    case Logout(token, at) =>
      if token == "" then w else w.(entries := w.entries - {h(token)})
  }

  /** Minted tokens are nonempty and were never minted before. */
  predicate MintsFresh(w: World, e: Event) {
    e.Logout? || (e.minted != "" && e.minted !in w.lineage && (e.Refresh? ==> e.minted != e.token))
  }

  function Run(h: Hasher, kind: Kind, ttl: int, w: World, es: seq<Event>): World {
    if es == [] then w else Next(h, kind, ttl, Run(h, kind, ttl, w, es[..|es| - 1]), es[|es| - 1])
  }

  ghost predicate Plausible(h: Hasher, kind: Kind, ttl: int, w: World, es: seq<Event>) {
    && (forall i, j :: 0 <= i <= j < |es| ==> es[i].at <= es[j].at)
    && (forall i :: 0 <= i < |es| ==> MintsFresh(Run(h, kind, ttl, w, es[..i]), es[i]))
  }

  lemma PlausiblePrefix(h: Hasher, kind: Kind, ttl: int, w: World, es: seq<Event>)
    requires es != [] && Plausible(h, kind, ttl, w, es)
    ensures Plausible(h, kind, ttl, w, es[..|es| - 1])
    ensures MintsFresh(Run(h, kind, ttl, w, es[..|es| - 1]), es[|es| - 1])
  {
    hide Run, MintsFresh;
    var init := es[..|es| - 1];
    assert forall i :: 0 <= i < |init| ==> init[..i] == es[..i];
  }

  predicate Redeemable(h: Hasher, w: World, token: string, now: real) {
    token != "" && Read(w.entries, h(token), now).Some?
  }

  ghost predicate Issued(h: Hasher, lineage: map<string, nat>, k: string) {
    exists t :: t in lineage && h(t) == k
  }

  /** Tokens of one sign-in that are still stored are one and the same. */
  ghost predicate OnePerSignIn(h: Hasher, w: World) {
    forall s, t :: && s in w.lineage && h(s) in w.entries
                   && t in w.lineage && h(t) in w.entries
                   && w.lineage[s] == w.lineage[t]
                   ==> s == t
  }

  /** Every stored record belongs to an issued token and to the user of that token's sign-in. */
  ghost predicate Owned(h: Hasher, w: World) {
    && (forall k :: k in w.entries ==> Issued(h, w.lineage, k))
    && (forall t :: t in w.lineage ==> w.lineage[t] < |w.owners| && t != "")
    && (forall t :: t in w.lineage && h(t) in w.entries ==> w.entries[h(t)].owner == w.owners[w.lineage[t]])
  }

  ghost predicate Spent(h: Hasher, w: World) {
    && (forall t :: t in w.redeemed ==> t in w.lineage && h(t) !in w.entries)
    && Distinct(w.redeemed)
  }

  ghost predicate Rotated(h: Hasher, w: World) {
    Owned(h, w) && OnePerSignIn(h, w) && Spent(h, w)
  }

  ghost predicate Within(es: Entries, all: Entries) {
    forall k :: k in es ==> k in all && es[k] == all[k]
  }

  lemma RemovingKeepsRotation(h: Hasher, w: World, es: Entries)
    requires Rotated(h, w) && Within(es, w.entries)
    ensures Rotated(h, w.(entries := es))
  {
  }

  /** A fresh token has no record, so storing it adds at most that one record. */
  lemma FreshStaysWithin(h: Hasher, kind: Kind, w: World, minted: string, owner: Owner, ttl: int, at: real)
    requires Injective(h) && Owned(h, w) && minted !in w.lineage
    ensures h(minted) !in w.entries
    ensures Within(StoreIn(kind, w.entries, h(minted), owner, ttl, at), w.entries[h(minted) := Entry(owner, Expiry(at, ttl))])
  {
    assert h(minted) in w.entries ==> Issued(h, w.lineage, h(minted));
  }

  /** Issuing a fresh token to a sign-in that has none stored. */
  lemma IssuingKeepsRotation(h: Hasher, w: World, minted: string, n: nat, x: Entry, es: Entries)
    requires Injective(h) && Rotated(h, w) && minted != "" && minted !in w.lineage
    requires n < |w.owners| && x.owner == w.owners[n]
    requires forall t :: t in w.lineage && w.lineage[t] == n ==> h(t) !in w.entries
    requires Within(es, w.entries[h(minted) := x])
    ensures Rotated(h, w.(entries := es, lineage := w.lineage[minted := n]))
  {
    forall t | t in w.lineage && h(t) in es ensures h(t) in w.entries && es[h(t)] == w.entries[h(t)] {
      assert h(t) != h(minted);
    }
    IssuedStaysOwned(h, w, minted, n, x, es);
    IssuedStaysSingle(h, w, minted, n, es);
  }

  lemma IssuedStaysOwned(h: Hasher, w: World, minted: string, n: nat, x: Entry, es: Entries)
    requires Owned(h, w) && minted != "" && minted !in w.lineage && n < |w.owners| && x.owner == w.owners[n]
    requires forall t :: t in w.lineage && h(t) in es ==> h(t) in w.entries && es[h(t)] == w.entries[h(t)]
    requires Within(es, w.entries[h(minted) := x])
    ensures Owned(h, w.(entries := es, lineage := w.lineage[minted := n]))
  {
    forall k | k in es ensures Issued(h, w.lineage[minted := n], k) {
      if k == h(minted) {
        assert minted in w.lineage[minted := n];
      } else {
        var t :| t in w.lineage && h(t) == k;
        assert t in w.lineage[minted := n];
      }
    }
  }

  lemma IssuedStaysSingle(h: Hasher, w: World, minted: string, n: nat, es: Entries)
    requires OnePerSignIn(h, w) && Spent(h, w) && minted !in w.lineage
    requires forall t :: t in w.lineage && h(t) in es ==> h(t) in w.entries
    requires forall t :: t in w.lineage && w.lineage[t] == n ==> h(t) !in w.entries
    ensures OnePerSignIn(h, w.(entries := es, lineage := w.lineage[minted := n]))
    ensures Spent(h, w.(entries := es, lineage := w.lineage[minted := n]))
  {
  }

  /** The world after a token was taken out of the store. */
  function TakenFrom(h: Hasher, kind: Kind, w: World, token: string, at: real): World {
    var (es, owner) := TakeFrom(kind, w.entries, h(token), at);
    w.(entries := es, redeemed := if owner.Some? then w.redeemed + [token] else w.redeemed)
  }

  lemma RedeemableIsIssued(h: Hasher, kind: Kind, w: World, token: string, at: real)
    requires Injective(h) && Rotated(h, w) && Read(w.entries, h(token), at).Some?
    ensures token in w.lineage && token !in w.redeemed
    ensures Read(w.entries, h(token), at) == Some(w.owners[w.lineage[token]])
    ensures forall t :: t in w.lineage && w.lineage[t] == w.lineage[token] ==> h(t) !in TakeFrom(kind, w.entries, h(token), at).0
  {
    assert Issued(h, w.lineage, h(token));
  }

  lemma TakeKeepsRotation(h: Hasher, kind: Kind, w: World, token: string, at: real)
    requires Injective(h) && Rotated(h, w)
    ensures Rotated(h, TakenFrom(h, kind, w, token, at))
  {
    var (es, owner) := TakeFrom(kind, w.entries, h(token), at);
    RemovingKeepsRotation(h, w, es);
    if owner.Some? {
      RedeemableIsIssued(h, kind, w, token, at);
    }
  }

  lemma StepKeepsRotation(h: Hasher, kind: Kind, ttl: int, w: World, e: Event)
    requires Injective(h) && Rotated(h, w) && MintsFresh(w, e)
    ensures Rotated(h, Next(h, kind, ttl, w, e))
  {
    match e {
      case SignIn(owner, minted, at) =>
        SignInKeepsRotation(h, kind, ttl, w, owner, minted, at);
      case Refresh(token, active, minted, at) =>
        TakeKeepsRotation(h, kind, w, token, at);
        if token != "" && Read(w.entries, h(token), at).Some? && active {
          ReissueKeepsRotation(h, kind, ttl, w, token, minted, at);
        }
      case Logout(token, at) =>
        RemovingKeepsRotation(h, w, Next(h, kind, ttl, w, e).entries);
    }
  }

  lemma SignInKeepsRotation(h: Hasher, kind: Kind, ttl: int, w: World, owner: Owner, minted: string, at: real)
    requires Injective(h) && Rotated(h, w) && minted != "" && minted !in w.lineage
    ensures Rotated(h, Next(h, kind, ttl, w, SignIn(owner, minted, at)))
  {
    var w' := w.(owners := w.owners + [owner]);
    assert Owned(h, w') && OnePerSignIn(h, w') && Spent(h, w');
    var x := Entry(owner, Expiry(at, ttl));
    FreshStaysWithin(h, kind, w', minted, owner, ttl, at);
    IssuingKeepsRotation(h, w', minted, |w.owners|, x, StoreIn(kind, w.entries, h(minted), owner, ttl, at));
  }

  lemma ReissueKeepsRotation(h: Hasher, kind: Kind, ttl: int, w: World, token: string, minted: string, at: real)
    requires Injective(h) && Rotated(h, w) && MintsFresh(w, Refresh(token, true, minted, at))
    requires token != "" && Read(w.entries, h(token), at).Some?
    ensures Rotated(h, Next(h, kind, ttl, w, Refresh(token, true, minted, at)))
  {
    RedeemableIsIssued(h, kind, w, token, at);
    TakeKeepsRotation(h, kind, w, token, at);
    var mid, n := TakenFrom(h, kind, w, token, at), w.lineage[token];
    var x := Entry(w.owners[n], Expiry(at, ttl));
    FreshStaysWithin(h, kind, mid, minted, w.owners[n], ttl, at);
    IssuingKeepsRotation(h, mid, minted, n, x, StoreIn(kind, mid.entries, h(minted), w.owners[n], ttl, at));
  }

  lemma {:induction false} RunKeepsRotation(h: Hasher, kind: Kind, ttl: int, es: seq<Event>)
    requires Injective(h) && Plausible(h, kind, ttl, NEW_WORLD, es)
    ensures Rotated(h, Run(h, kind, ttl, NEW_WORLD, es))
  {
    if es != [] {
      PlausiblePrefix(h, kind, ttl, NEW_WORLD, es);
      RunKeepsRotation(h, kind, ttl, es[..|es| - 1]);
      StepKeepsRotation(h, kind, ttl, Run(h, kind, ttl, NEW_WORLD, es[..|es| - 1]), es[|es| - 1]);
    }
  }

  /** A redeemable token stands for the user of its own sign-in and has not been redeemed yet. */
  ghost predicate Faithful(h: Hasher, w: World, s: string, now: real) {
    Redeemable(h, w, s, now) ==>
      && s in w.lineage && w.lineage[s] < |w.owners|
      && Read(w.entries, h(s), now) == Some(w.owners[w.lineage[s]])
      && s !in w.redeemed
  }

  ghost predicate SoleToken(h: Hasher, w: World, s: string, t: string, now: real) {
    Redeemable(h, w, s, now) && Redeemable(h, w, t, now) && s in w.lineage && t in w.lineage && s != t
    ==> w.lineage[s] != w.lineage[t]
  }

  lemma RotatedIsFaithful(h: Hasher, kind: Kind, w: World, s: string, t: string, now: real)
    requires Injective(h) && Rotated(h, w)
    ensures Faithful(h, w, s, now) && SoleToken(h, w, s, t, now)
  {
    if Redeemable(h, w, s, now) { RedeemableIsIssued(h, kind, w, s, now); }
  }

  /**
    However sign-ins, refreshes and logouts interleave, each sign-in has at most
    one redeemable token, it stands for the user who signed in, and no token is
    ever redeemed twice.
   */
  lemma AtMostOneTokenPerSignIn(h: Hasher, kind: Kind, ttl: int, es: seq<Event>, s: string, t: string, now: real)
    requires Injective(h) && Plausible(h, kind, ttl, NEW_WORLD, es)
    ensures Faithful(h, Run(h, kind, ttl, NEW_WORLD, es), s, now)
    ensures SoleToken(h, Run(h, kind, ttl, NEW_WORLD, es), s, t, now)
    ensures Distinct(Run(h, kind, ttl, NEW_WORLD, es).redeemed)
  {
    RunKeepsRotation(h, kind, ttl, es);
    RotatedIsFaithful(h, kind, Run(h, kind, ttl, NEW_WORLD, es), s, t, now);
  }

  /** Two stores that give the same answers from an instant on. */
  ghost predicate SameAnswers(a: Entries, b: Entries, from: real) {
    forall k, now :: now >= from ==> Read(a, k, now) == Read(b, k, now)
  }

  /** Two worlds with the same past, whose stores give the same answers from an instant on. */
  ghost predicate Alike(a: World, b: World, from: real) {
    a.lineage == b.lineage && a.owners == b.owners && a.redeemed == b.redeemed && SameAnswers(a.entries, b.entries, from)
  }

  /** Storing a fresh record keeps two stores alike. */
  lemma StoresAlike(a: Entries, b: Entries, k: string, owner: Owner, ttl: int, now: real)
    requires k !in b && SameAnswers(a, b, now)
    ensures SameAnswers(StoreIn(Memory, a, k, owner, ttl, now), StoreIn(Redis, b, k, owner, ttl, now), now)
  {
    forall key, t | t >= now
      ensures Read(StoreIn(Memory, a, k, owner, ttl, now), key, t) == Read(StoreIn(Redis, b, k, owner, ttl, now), key, t)
    {
      assert Read(a, key, t) == Read(b, key, t);
    }
  }

  lemma TakesAlike(a: Entries, b: Entries, k: string, now: real)
    requires SameAnswers(a, b, now)
    ensures TakeFrom(Memory, a, k, now).1 == TakeFrom(Redis, b, k, now).1
    ensures SameAnswers(TakeFrom(Memory, a, k, now).0, TakeFrom(Redis, b, k, now).0, now)
  {
    assert Read(a, k, now) == Read(b, k, now);
    forall key, t | t >= now
      ensures Read(TakeFrom(Memory, a, k, now).0, key, t) == Read(TakeFrom(Redis, b, k, now).0, key, t)
    {
      assert Read(a, key, t) == Read(b, key, t);
    }
  }

  lemma StepAlike(h: Hasher, ttl: int, a: World, b: World, e: Event)
    requires Injective(h) && Owned(h, b) && MintsFresh(b, e) && Alike(a, b, e.at)
    ensures Alike(Next(h, Memory, ttl, a, e), Next(h, Redis, ttl, b, e), e.at)
  {
    hide StoreIn, TakeFrom, SameAnswers, Injective;
    match e {
      case SignIn(owner, minted, at) =>
        FreshStaysWithin(h, Redis, b, minted, owner, ttl, at);
        StoresAlike(a.entries, b.entries, h(minted), owner, ttl, at);
      case Refresh(token, active, minted, at) =>
        TakesAlike(a.entries, b.entries, h(token), at);
        var (ea, oa) := TakeFrom(Memory, a.entries, h(token), at);
        var (eb, ob) := TakeFrom(Redis, b.entries, h(token), at);
        if token != "" && oa.Some? && active && token in a.lineage {
          FreshStaysWithin(h, Redis, b, minted, ob.value, ttl, at);
          TakenIsFewer(b.entries, h(token), at);
          StoresAlike(ea, eb, h(minted), ob.value, ttl, at);
        }
      case Logout(token, at) =>
        DropsAlike(a.entries, b.entries, h(token), at);
    }
  }

  lemma TakenIsFewer(es: Entries, k: string, now: real)
    ensures forall key :: key in TakeFrom(Redis, es, k, now).0 ==> key in es
  {
  }

  lemma DropsAlike(a: Entries, b: Entries, k: string, now: real)
    requires SameAnswers(a, b, now)
    ensures SameAnswers(a - {k}, b - {k}, now)
  {
    forall key, t | t >= now ensures Read(a - {k}, key, t) == Read(b - {k}, key, t) {
      assert Read(a, key, t) == Read(b, key, t);
    }
  }

  /** The last instant of a run, or any instant for an empty one. */
  ghost predicate Over(es: seq<Event>, now: real) {
    es != [] ==> es[|es| - 1].at <= now
  }

  /**
    In memory and in Redis the same calls leave the same past and the same
    redeemable tokens: minted tokens are fresh, so the case in which the two
    backends differ never comes up.
   */
  lemma {:induction false} BackendsRotateAlike(h: Hasher, ttl: int, es: seq<Event>, now: real)
    requires Injective(h) && Plausible(h, Redis, ttl, NEW_WORLD, es) && Over(es, now)
    ensures Alike(Run(h, Memory, ttl, NEW_WORLD, es), Run(h, Redis, ttl, NEW_WORLD, es), now)
  {
    hide Next, Alike, Injective, MintsFresh, Plausible, Owned;
    if es == [] {
      NewWorldsAlike(now);
    } else {
      var e, init := es[|es| - 1], es[..|es| - 1];
      PlausiblePrefix(h, Redis, ttl, NEW_WORLD, es);
      PlausibleOrder(h, Redis, ttl, NEW_WORLD, es);
      BackendsRotateAlike(h, ttl, init, e.at);
      RunKeepsRotation(h, Redis, ttl, init);
      StepAlike(h, ttl, Run(h, Memory, ttl, NEW_WORLD, init), Run(h, Redis, ttl, NEW_WORLD, init), e);
      AlikeLater(Run(h, Memory, ttl, NEW_WORLD, es), Run(h, Redis, ttl, NEW_WORLD, es), e.at, now);
    }
  }

  lemma NewWorldsAlike(now: real)
    ensures Alike(NEW_WORLD, NEW_WORLD, now)
  {
  }

  lemma AlikeLater(a: World, b: World, from: real, now: real)
    requires Alike(a, b, from) && from <= now
    ensures Alike(a, b, now)
  {
    hide Read;
  }

  lemma PlausibleOrder(h: Hasher, kind: Kind, ttl: int, w: World, es: seq<Event>)
    requires es != [] && Plausible(h, kind, ttl, w, es)
    ensures Over(es[..|es| - 1], es[|es| - 1].at)
  {
    hide Run, MintsFresh;
  }

  /** No sign-in or refresh of the run issues this token. */
  ghost predicate NeverMinted(es: seq<Event>, t: string) {
    forall i :: 0 <= i < |es| && !es[i].Logout? ==> es[i].minted != t
  }

  /** A token that cannot be redeemed (spent, revoked or expired) never can be again, unless it is yet to be issued. */
  lemma {:induction false} DeadTokensStayDead(h: Hasher, kind: Kind, ttl: int, w: World, es: seq<Event>, t: string, from: real, now: real)
    requires Injective(h) && Plausible(h, kind, ttl, w, es) && !Redeemable(h, w, t, from)
    requires t in w.lineage || NeverMinted(es, t)
    requires from <= now && forall i :: 0 <= i < |es| ==> from <= es[i].at
    ensures t in w.lineage ==> t in Run(h, kind, ttl, w, es).lineage
    ensures !Redeemable(h, Run(h, kind, ttl, w, es), t, now)
    ensures t in Run(h, kind, ttl, w, es).redeemed ==> t in w.redeemed
    decreases |es|
  {
    hide Next, Redeemable, Injective, Plausible, MintsFresh;
    if es == [] {
      DeadLater(h, w, t, from, now);
    } else {
      var e, init := es[|es| - 1], es[..|es| - 1];
      PlausiblePrefix(h, kind, ttl, w, es);
      DeadTokensStayDead(h, kind, ttl, w, init, t, from, from);
      DeadAfterStep(h, kind, ttl, Run(h, kind, ttl, w, init), e, t, from);
      DeadLater(h, Run(h, kind, ttl, w, es), t, from, now);
    }
  }

  lemma DeadLater(h: Hasher, w: World, t: string, from: real, now: real)
    requires !Redeemable(h, w, t, from) && from <= now
    ensures !Redeemable(h, w, t, now)
  {
  }

  lemma DeadAfterStep(h: Hasher, kind: Kind, ttl: int, w: World, e: Event, t: string, from: real)
    requires Injective(h) && MintsFresh(w, e) && !Redeemable(h, w, t, from) && from <= e.at
    requires t in w.lineage || e.Logout? || e.minted != t
    ensures t in w.lineage ==> t in Next(h, kind, ttl, w, e).lineage
    ensures !Redeemable(h, Next(h, kind, ttl, w, e), t, from)
    ensures t in Next(h, kind, ttl, w, e).redeemed ==> t in w.redeemed
  {
  }

  /** A refresh succeeds exactly on a redeemable token of an active user, and then the old token is dead and the new one lives. */
  lemma RefreshRotates(h: Hasher, kind: Kind, ttl: int, w: World, token: string, active: bool, minted: string, at: real)
    requires Injective(h) && Rotated(h, w) && MintsFresh(w, Refresh(token, active, minted, at))
    ensures var w' := Next(h, kind, ttl, w, Refresh(token, active, minted, at));
            && !Redeemable(h, w', token, at)
            && (Redeemable(h, w', minted, at) <==> Redeemable(h, w, token, at) && active && ttl > 0)
            && (Redeemable(h, w', minted, at) ==> token in w.lineage && w'.lineage[minted] == w.lineage[token])
  {
    if Redeemable(h, w, token, at) { RedeemableIsIssued(h, kind, w, token, at); }
    if Redeemable(h, w, minted, at) { RedeemableIsIssued(h, kind, w, minted, at); }
  }

  /** A token other than the one an event presents or issues is worth what it was worth before. */
  ghost predicate OthersKept(h: Hasher, w: World, w': World, changed: set<string>, from: real) {
    forall t, now :: t !in changed && now >= from ==> Read(w'.entries, h(t), now) == Read(w.entries, h(t), now)
  }

  /** A logout revokes the token it presents, for good, and does nothing else; without one it does nothing at all. */
  lemma LogoutRevokes(h: Hasher, kind: Kind, ttl: int, w: World, token: string, at: real)
    requires Injective(h)
    ensures var w' := Next(h, kind, ttl, w, Logout(token, at));
            && (forall now :: !Redeemable(h, w', token, now))
            && OthersKept(h, w, w', {token}, at)
            && (token == "" ==> w' == w)
            && w'.redeemed == w.redeemed && w'.lineage == w.lineage && w'.owners == w.owners
  {
  }

  /** A sign-in issues a token that only its owner redeems, until it expires, and touches no other token. */
  lemma SignInIssues(h: Hasher, kind: Kind, ttl: int, w: World, owner: Owner, minted: string, at: real, now: real)
    requires Injective(h) && Rotated(h, w) && MintsFresh(w, SignIn(owner, minted, at)) && now >= at
    ensures var w' := Next(h, kind, ttl, w, SignIn(owner, minted, at));
            && Read(w'.entries, h(minted), now) == (if now < at + ttl as real then Some(owner) else None)
            && (Redeemable(h, w', minted, now) <==> now < at + ttl as real)
            && OthersKept(h, w, w', {minted}, at)
            && w'.redeemed == w.redeemed && w'.owners == w.owners + [owner]
            && w'.lineage == w.lineage[minted := |w.owners|]
  {
    FreshStaysWithin(h, kind, w, minted, owner, ttl, at);
  }

  /** A refresh that succeeds hands the old token's owner to the new one, until it expires, and touches no other token. */
  lemma RefreshHandsOver(h: Hasher, kind: Kind, ttl: int, w: World, token: string, active: bool, minted: string, at: real, now: real)
    requires Injective(h) && Rotated(h, w) && MintsFresh(w, Refresh(token, active, minted, at)) && now >= at
    ensures var w' := Next(h, kind, ttl, w, Refresh(token, active, minted, at));
            && (Redeemable(h, w, token, at) && active ==>
                  Read(w'.entries, h(minted), now) ==
                  if now < at + ttl as real then Read(w.entries, h(token), at) else None)
            && (!(Redeemable(h, w, token, at) && active) ==> Read(w'.entries, h(minted), now) == None)
            && OthersKept(h, w, w', {token, minted}, at)
            && w'.redeemed == w.redeemed + (if Redeemable(h, w, token, at) then [token] else [])
  {
    hide Injective, Rotated, Read, TakeFrom, StoreIn, Consumed;
    TakeReads(kind, w.entries, h(token), at);
    var es := TakeFrom(kind, w.entries, h(token), at).0;
    MintedIsUnstored(h, w, minted, token);
    if token != "" && Read(w.entries, h(token), at).Some? {
      RedeemableIsIssued(h, kind, w, token, at);
      if active { StoreReads(kind, es, h(minted), Read(w.entries, h(token), at).value, ttl, at, now); }
    }
    NothingStored(w.entries, h(minted), now);
    DifferentKeys(h);
  }

  lemma DifferentKeys(h: Hasher)
    requires Injective(h)
    ensures forall s, t :: s != t ==> h(s) != h(t)
  {
  }

  lemma MintedIsUnstored(h: Hasher, w: World, minted: string, token: string)
    requires Injective(h) && Rotated(h, w) && minted !in w.lineage && minted != token
    ensures h(minted) !in w.entries && h(minted) != h(token)
  {
    FreshStaysWithin(h, Memory, w, minted, Owner("", ""), 0, 0.0);
  }

  lemma NothingStored(es: Entries, k: string, now: real)
    ensures k !in es ==> Read(es, k, now) == None
  {
  }

  /** Taking a key answers what it is worth, leaves nothing of it, and touches no other key. */
  lemma TakeReads(kind: Kind, es: Entries, k: string, at: real)
    ensures var (es', owner) := TakeFrom(kind, es, k, at);
            && owner == Read(es, k, at)
            && k !in es' && (forall key :: key in es' ==> key in es)
            && forall key, t :: key != k && t >= at ==> Read(es', key, t) == Read(es, key, t)
  {
  }

  /** A record stored under a new key is worth its owner until it expires; no other key changes. */
  lemma StoreReads(kind: Kind, es: Entries, k: string, owner: Owner, ttl: int, at: real, now: real)
    requires k !in es && now >= at
    ensures var es' := StoreIn(kind, es, k, owner, ttl, at);
            && Read(es', k, now) == (if now < at + ttl as real then Some(owner) else None)
            && forall key, t :: key != k && t >= at ==> Read(es', key, t) == Read(es, key, t)
  {
  }

  /** Run after run, from any world. */
  lemma {:induction false} RunSplits(h: Hasher, kind: Kind, ttl: int, w: World, a: seq<Event>, b: seq<Event>)
    ensures Run(h, kind, ttl, w, a + b) == Run(h, kind, ttl, Run(h, kind, ttl, w, a), b)
  {
    hide Next;
    if b == [] {
      assert a + b == a;
    } else {
      var n := |b| - 1;
      RunSplits(h, kind, ttl, w, a, b[..n]);
      assert (a + b)[..|a + b| - 1] == a + b[..n];
    }
  }

  lemma PlausibleSplits(h: Hasher, kind: Kind, ttl: int, w: World, a: seq<Event>, b: seq<Event>)
    requires Plausible(h, kind, ttl, w, a + b)
    ensures Plausible(h, kind, ttl, w, a) && Plausible(h, kind, ttl, Run(h, kind, ttl, w, a), b)
    ensures forall i, j :: 0 <= i < |a| && 0 <= j < |b| ==> a[i].at <= b[j].at
  {
    hide Run, MintsFresh;
    var es := a + b;
    forall i | 0 <= i < |a| ensures MintsFresh(Run(h, kind, ttl, w, a[..i]), a[i]) {
      assert es[..i] == a[..i] && es[i] == a[i];
    }
    forall i | 0 <= i < |b| ensures MintsFresh(Run(h, kind, ttl, Run(h, kind, ttl, w, a), b[..i]), b[i]) {
      assert es[..|a| + i] == a + b[..i] && es[|a| + i] == b[i];
      RunSplits(h, kind, ttl, w, a, b[..i]);
    }
    assert forall i :: 0 <= i < |a| ==> es[i] == a[i];
    assert forall i :: 0 <= i < |b| ==> es[|a| + i] == b[i];
  }

  /**
    In any run, a token presented at a logout is never redeemed afterwards; one
    that was not issued before must not be issued later either, which fresh
    tokens rule out for those that were.
   */
  lemma LoggedOutIsNeverRedeemed(h: Hasher, kind: Kind, ttl: int, before: seq<Event>, token: string, at: real, after: seq<Event>, now: real)
    requires Injective(h) && Plausible(h, kind, ttl, NEW_WORLD, before + ([Logout(token, at)] + after))
    requires now >= at
    requires token in Run(h, kind, ttl, NEW_WORLD, before).lineage || NeverMinted(after, token)
    ensures var w, w' := Run(h, kind, ttl, NEW_WORLD, before), Run(h, kind, ttl, NEW_WORLD, before + ([Logout(token, at)] + after));
            && !Redeemable(h, w', token, now)
            && (token in w'.redeemed ==> token in w.redeemed)
  {
    hide Next, Redeemable, Plausible, Injective, Read;
    var out := [Logout(token, at)];
    var w := Run(h, kind, ttl, NEW_WORLD, before);
    PlausibleSplits(h, kind, ttl, NEW_WORLD, before, out + after);
    RunSplits(h, kind, ttl, NEW_WORLD, before, out + after);
    PlausibleSplits(h, kind, ttl, w, out, after);
    RunSplits(h, kind, ttl, w, out, after);
    OneEvent(h, kind, ttl, w, out[0]);
    LogoutRevokes(h, kind, ttl, w, token, at);
    assert forall j :: 0 <= j < |after| ==> out[0].at <= after[j].at;
    DeadTokensStayDead(h, kind, ttl, Run(h, kind, ttl, w, out), after, token, at, now);
  }

  lemma OneEvent(h: Hasher, kind: Kind, ttl: int, w: World, e: Event)
    ensures Run(h, kind, ttl, w, [e]) == Next(h, kind, ttl, w, e)
  {
    hide Next;
    assert [e][..0] == [];
  }

  class AuthRoutes {
    const store: MemoryBackend
    const ttl: int
    const h: Hasher
    ghost var lineage: map<string, nat>
    ghost var owners: seq<Owner>
    ghost var redeemed: seq<string>

    ghost function View(): World
      reads this, store
    {
      World(store.entries, lineage, owners, redeemed)
    }

    constructor (h: Hasher, ttl: int)
      ensures View() == NEW_WORLD && this.h == h && this.ttl == ttl && fresh(store)
    {
      this.h, this.ttl := h, ttl;
      store := new MemoryBackend();
      lineage, owners, redeemed := map[], [], [];
    }

    /** The end of a successful sign-in: one refresh token is issued. */
    method CompleteSignIn(owner: Owner, minted: string, now: real) returns (token: string)
      modifies this, store
      ensures View() == Next(h, Memory, ttl, old(View()), SignIn(owner, minted, now)) && token == minted
    {
      store.Put(h(minted), owner, ttl, now);
      lineage, owners := lineage[minted := |owners|], owners + [owner];
      return minted;
    }

    /** The refresh route; active is what the user lookup says. No token back means a 401. */
    method RefreshToken(token: string, active: bool, minted: string, now: real) returns (issued: Option<string>)
      requires Injective(h) && Rotated(h, View())
      modifies this, store
      ensures View() == Next(h, Memory, ttl, old(View()), Refresh(token, active, minted, now))
      ensures issued == if old(Redeemable(h, View(), token, now)) && active then Some(minted) else None
    {
      if token == "" {
        return None;
      }
      if Redeemable(h, View(), token, now) { RedeemableIsIssued(h, Memory, View(), token, now); }
      var owner := store.Take(h(token), now);
      if owner.None? {
        return None;
      }
      redeemed := redeemed + [token];
      if !active {
        return None;
      }
      store.Put(h(minted), owner.value, ttl, now);
      lineage := lineage[minted := lineage[token]];
      return Some(minted);
    }

    /** The part of logout that revokes a refresh token. */
    method RevokeOnLogout(token: string, now: real)
      modifies this, store
      ensures View() == Next(h, Memory, ttl, old(View()), Logout(token, now))
    {
      if token != "" {
        store.Drop(h(token));
      }
    }
  }
}

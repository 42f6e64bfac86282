/**
  Brute-force lockout of the sign-in route: the two backends, the gate that the
  route puts in front of the password check, and what every run records.
 */
module Lockout {
  import opened Wrappers
  import opened Windows

  /** Threshold, and the failure window and lock duration in seconds. */
  datatype Settings = Settings(maxFailures: int, window: int, lockFor: int)

  /** The state of a backend; instants are on one clock shared with the caller. */
  datatype Backend =
    | Memory(failures: map<string, seq<real>>, locks: map<string, real>)
    | Redis(counts: map<string, Counter>, lockKeys: map<string, real>)

  const FRESH_MEMORY := Memory(map[], map[])
  const FRESH_REDIS := Redis(map[], map[])

  function FailuresOf(b: Backend, key: string): seq<real>
    requires b.Memory?
  {
    if key in b.failures then b.failures[key] else []
  }

  function IsLocked(b: Backend, key: string, now: real): (Backend, bool) {
    match b
    case Memory(_, locks) =>
      var until := if key in locks then locks[key] else 0.0;
      if until > now then (b, true)
      else if until != 0.0 then (b.(locks := locks - {key}), false)
      else (b, false)
    case Redis(_, lockKeys) => (b, key in lockKeys && now < lockKeys[key])
  }

  function RecordFailure(b: Backend, key: string, now: real, window: int): (Backend, nat) {
    match b
    case Memory(failures, _) =>
      var bucket := Pruned(FailuresOf(b, key), now, window) + [now];
      (b.(failures := failures[key := bucket]), |bucket|)
    case Redis(counts, _) =>
      var count := LiveCount(counts, key, now) + 1;
      (b.(counts := counts[key := Counter(count, now + window as real)]), count)
  }

  function RecordSuccess(b: Backend, key: string): Backend {
    match b
    case Memory(failures, locks) => Memory(failures - {key}, locks - {key})
    case Redis(counts, lockKeys) => Redis(counts - {key}, lockKeys - {key})
  }

  /** Redis refuses a lock key that would expire at once; the refusal is logged and ignored. */
  function SetLock(b: Backend, key: string, now: real, ttl: int): Backend {
    match b
    case Memory(_, locks) => b.(locks := locks[key := now + ttl as real])
    case Redis(_, lockKeys) => if ttl <= 0 then b else b.(lockKeys := lockKeys[key := now + ttl as real])
  }

  /** record_failure: the new state and whether this failure tripped the lock. */
  function Fail(b: Backend, cfg: Settings, key: string, now: real): (Backend, bool) {
    var (b', count) := RecordFailure(b, key, now, cfg.window);
    if count >= cfg.maxFailures then (SetLock(b', key, now, cfg.lockFor), true) else (b', false)
  }

  datatype Answer = LockedOut | Failed | Passed

  /** The gate of the sign-in route; ok says whether account and password check out. */
  function Signin(b: Backend, cfg: Settings, key: string, now: real, ok: bool): (Backend, Answer) {
    var (b', locked) := IsLocked(b, key, now);
    if locked then (b', LockedOut)
    else if !ok then (Fail(b', cfg, key, now).0, Failed)
    else (RecordSuccess(b', key), Passed)
  }

  // ------------------------------------------------------- runs

  /** A sign-in attempt, or a completed password reset, which clears the account. */
  datatype Call = Attempt(key: string, at: real, ok: bool) | Reset(key: string, at: real)

  /** What the gate records for one account. */
  datatype Entry = Failure(at: real) | Success(at: real)

  ghost predicate ClockRuns(calls: seq<Call>) {
    && (forall i :: 0 <= i < |calls| ==> calls[i].at >= 0.0)
    && (forall i, j :: 0 <= i <= j < |calls| ==> calls[i].at <= calls[j].at)
  }

  function Handle(b: Backend, cfg: Settings, c: Call): (Backend, Option<Entry>) {
    match c
    case Reset(key, at) => (RecordSuccess(b, key), Some(Success(at)))
    case Attempt(key, at, ok) =>
      var (b', answer) := Signin(b, cfg, key, at, ok);
      (b', match answer case LockedOut => None case Failed => Some(Failure(at)) case Passed => Some(Success(at)))
  }

  /** The entry that one call leaves in the history of one account. */
  function EntryFor(b: Backend, cfg: Settings, c: Call, key: string): Option<Entry> {
    if c.key == key then Handle(b, cfg, c).1 else None
  }

  function After(b: Backend, cfg: Settings, calls: seq<Call>): Backend {
    if calls == [] then b else Handle(After(b, cfg, calls[..|calls| - 1]), cfg, calls[|calls| - 1]).0
  }

  function Log(b: Backend, cfg: Settings, calls: seq<Call>, key: string): seq<Entry> {
    if calls == [] then []
    else
      var c, init := calls[|calls| - 1], calls[..|calls| - 1];
      var entry := EntryFor(After(b, cfg, init), cfg, c, key);
      Log(b, cfg, init, key) + if entry.Some? then [entry.value] else []
  }

  /** Failures recorded since the last success. */
  function Since(log: seq<Entry>): seq<real> {
    if log == [] then []
    else match log[|log| - 1]
      case Success(_) => []
      case Failure(at) => Since(log[..|log| - 1]) + [at]
  }

  ghost predicate InTime(log: seq<Entry>, now: real) {
    && (forall i, j :: 0 <= i <= j < |log| ==> log[i].at <= log[j].at)
    && (forall i :: 0 <= i < |log| ==> 0.0 <= log[i].at <= now)
  }

  lemma {:induction false} SinceInTime(log: seq<Entry>, now: real)
    requires InTime(log, now)
    ensures Sorted(Since(log))
    ensures forall i :: 0 <= i < |Since(log)| ==> log != [] && 0.0 <= Since(log)[i] <= log[|log| - 1].at
  {
    if log != [] {
      SinceInTime(log[..|log| - 1], now);
      assert |log| > 1 ==> log[|log| - 2].at <= log[|log| - 1].at;
    }
  }

  lemma EntryTime(b: Backend, cfg: Settings, c: Call, key: string)
    ensures var entry := EntryFor(b, cfg, c, key); entry.Some? ==> entry.value.at == c.at
  {
    hide IsLocked, Fail, RecordSuccess;
  }

  lemma InTimeSnoc(log: seq<Entry>, entry: Entry)
    requires InTime(log, entry.at) && entry.at >= 0.0
    ensures InTime(log + [entry], entry.at)
  {
  }

  lemma NothingInTime(now: real)
    ensures InTime([], now)
  {
  }

  lemma InTimeLater(log: seq<Entry>, t: real, now: real)
    requires InTime(log, t) && t <= now
    ensures InTime(log, now)
  {
  }

  lemma {:induction false} LogInTime(b: Backend, cfg: Settings, calls: seq<Call>, key: string, now: real)
    requires ClockRuns(calls) && (calls != [] ==> calls[|calls| - 1].at <= now)
    ensures InTime(Log(b, cfg, calls, key), now)
  {
    hide After, EntryFor, InTime;
    if calls == [] {
      NothingInTime(now);
    } else {
      var c, init := calls[|calls| - 1], calls[..|calls| - 1];
      var log, entry := Log(b, cfg, init, key), EntryFor(After(b, cfg, init), cfg, c, key);
      assert |calls| > 1 ==> calls[|calls| - 2].at <= c.at;
      LogInTime(b, cfg, init, key, c.at);
      if entry.Some? {
        EntryTime(After(b, cfg, init), cfg, c, key);
        InTimeSnoc(log, entry.value);
        assert Log(b, cfg, calls, key) == log + [entry.value];
      } else {
        assert Log(b, cfg, calls, key) == log;
      }
      InTimeLater(Log(b, cfg, calls, key), c.at, now);
    }
  }

  // ------------------------------------------- counting on one history

  /** The deque that a history of one account leaves in memory. */
  function MemoryAfter(log: seq<Entry>, window: int): seq<real> {
    if log == [] then []
    else match log[|log| - 1]
      case Success(_) => []
      case Failure(at) => Pruned(MemoryAfter(log[..|log| - 1], window), at, window) + [at]
  }

  /** The counter that the same history leaves in Redis. */
  function RedisAfter(log: seq<Entry>, window: int): Option<Counter> {
    if log == [] then None
    else match log[|log| - 1]
      case Success(_) => None
      case Failure(at) =>
        Some(Counter(CountAt(RedisAfter(log[..|log| - 1], window), at) + 1, at + window as real))
  }

  lemma {:induction false} MemoryForgetsOnlyOld(log: seq<Entry>, now: real, window: int)
    requires InTime(log, now)
    ensures Pruned(MemoryAfter(log, window), now, window) == Pruned(Since(log), now, window)
  {
    if log != [] && log[|log| - 1].Failure? {
      var at, init := log[|log| - 1].at, log[..|log| - 1];
      MemoryForgetsOnlyOld(init, now, window);
      PrunedLater(MemoryAfter(init, window), at, now, window);
      PrunedSnoc(Pruned(MemoryAfter(init, window), at, window), at, now, window);
      PrunedSnoc(Since(init), at, now, window);
    }
  }

  /** The in-memory count is exactly the failures since the last success that are younger than the window. */
  lemma MemoryCountIsExact(log: seq<Entry>, now: real, window: int)
    requires InTime(log, now)
    ensures Pruned(MemoryAfter(log, window), now, window) == Young(Since(log), now, window)
  {
    MemoryForgetsOnlyOld(log, now, window);
    SinceInTime(log, now);
    PrunedIsYoung(Since(log), now, window);
  }

  lemma {:induction false} RedisCountsTheYoung(log: seq<Entry>, now: real, window: int)
    requires InTime(log, now)
    ensures CountAt(RedisAfter(log, window), now) >= |Young(Since(log), now, window)|
  {
    if log != [] && log[|log| - 1].Failure? {
      var at, init := log[|log| - 1].at, log[..|log| - 1];
      RedisCountsTheYoung(init, at, window);
      if now < at + window as real {
        YoungShrinks(Since(init), at, now, window);
      } else {
        SinceInTime(log, now);
        AllOld(Since(log), now, window);
      }
    }
  }

  /** On one history the Redis counter is never below the in-memory count, so it reaches the threshold no later. */
  lemma RedisTripsNoLater(log: seq<Entry>, now: real, window: int)
    requires InTime(log, now)
    ensures CountAt(RedisAfter(log, window), now) >= |Pruned(MemoryAfter(log, window), now, window)|
  {
    MemoryCountIsExact(log, now, window);
    RedisCountsTheYoung(log, now, window);
  }

  /** Two neighbouring failures belong together when the second comes before the first one's window is over. */
  ghost predicate Gapless(times: seq<real>, window: int) {
    forall i :: 0 < i < |times| ==> times[i] - times[i - 1] < window as real
  }

  /** The failures that end a history, each less than a window after the one before. */
  function LiveBurst(log: seq<Entry>, window: int): seq<real> {
    if log == [] then []
    else match log[|log| - 1]
      case Success(_) => []
      case Failure(at) =>
        var b := LiveBurst(log[..|log| - 1], window);
        if b != [] && at - b[|b| - 1] < window as real then b + [at] else [at]
  }

  /** b is the longest gapless end of f. */
  ghost predicate LongestEnd(f: seq<real>, b: seq<real>, window: int) {
    && |b| <= |f| && f[|f| - |b|..] == b && Gapless(b, window)
    && (f != [] ==> b != [])
    && (|b| < |f| ==> f[|f| - |b|] - f[|f| - |b| - 1] >= window as real)
  }

  lemma LongerEnd(f: seq<real>, b: seq<real>, at: real, window: int)
    requires LongestEnd(f, b, window) && b != [] && at - b[|b| - 1] < window as real
    ensures LongestEnd(f + [at], b + [at], window)
  {
    assert (f + [at])[|f| - |b|..] == f[|f| - |b|..] + [at];
  }

  lemma NewEnd(f: seq<real>, b: seq<real>, at: real, window: int)
    requires LongestEnd(f, b, window) && (b != [] ==> at - b[|b| - 1] >= window as real)
    ensures LongestEnd(f + [at], [at], window)
  {
    assert (f + [at])[|f|..] == [at];
    assert f != [] ==> f[|f| - |b|..][|b| - 1] == f[|f| - 1];
  }

  /** The burst is the longest gapless stretch of failures that ends the history since the last success. */
  lemma {:induction false} BurstIsLongest(log: seq<Entry>, window: int)
    ensures LongestEnd(Since(log), LiveBurst(log, window), window)
  {
    hide LongestEnd;
    if log != [] && log[|log| - 1].Failure? {
      var at, init := log[|log| - 1].at, log[..|log| - 1];
      BurstIsLongest(init, window);
      var f, b := Since(init), LiveBurst(init, window);
      if b != [] && at - b[|b| - 1] < window as real {
        LongerEnd(f, b, at, window);
      } else {
        NewEnd(f, b, at, window);
      }
    } else {
      NothingEnds(window);
    }
  }

  lemma NothingEnds(window: int)
    ensures LongestEnd([], [], window)
  {
  }

  /** The Redis counter is the whole burst, and expires a window after its last failure. */
  lemma {:induction false} RedisCountsTheBurst(log: seq<Entry>, window: int)
    ensures var b := LiveBurst(log, window);
            RedisAfter(log, window) == if b == [] then None else Some(Counter(|b|, b[|b| - 1] + window as real))
  {
    if log != [] && log[|log| - 1].Failure? { RedisCountsTheBurst(log[..|log| - 1], window); }
  }

  /** Past a gap of a window or more, nothing before it is young. */
  lemma YoungPastGap(f: seq<real>, k: nat, now: real, window: int)
    requires Sorted(f) && k <= |f| && (k < |f| ==> f[|f| - 1] <= now)
    requires 0 < k ==> k < |f| && f[k] - f[k - 1] >= window as real
    ensures Young(f, now, window) == Young(f[k..], now, window)
  {
    hide Young;
    var before := f[..k];
    assert f == before + f[k..];
    forall i | 0 <= i < k ensures now - before[i] >= window as real {
      assert before[i] == f[i] <= f[k - 1] && f[k] <= f[|f| - 1];
    }
    AllOld(before, now, window);
    YoungConcat(before, f[k..], now, window);
    assert [] + Young(f[k..], now, window) == Young(f[k..], now, window);
  }

  lemma YoungOfBurst(log: seq<Entry>, now: real, window: int)
    requires InTime(log, now)
    ensures var b := LiveBurst(log, window);
            && Young(Since(log), now, window) == Young(b, now, window)
            && Sorted(b) && forall i :: 0 <= i < |b| ==> b[i] <= now
  {
    hide Young, Since, LiveBurst;
    var f, b := Since(log), LiveBurst(log, window);
    BurstIsLongest(log, window);
    SinceInTime(log, now);
    var k := |f| - |b|;
    YoungPastGap(f, k, now, window);
    assert forall i :: 0 <= i < |b| ==> b[i] == f[k + i];
  }

  /**
    Redis and memory count alike exactly when the burst is empty, or all of it
    is younger than the window, or all of it is at least a window old.
   */
  lemma CountsAgreeIff(log: seq<Entry>, now: real, window: int)
    requires InTime(log, now)
    ensures var b := LiveBurst(log, window);
            CountAt(RedisAfter(log, window), now) == |Pruned(MemoryAfter(log, window), now, window)| <==>
            b == [] || now - b[0] < window as real || now - b[|b| - 1] >= window as real
  {
    hide Since, MemoryAfter, RedisAfter, LiveBurst, InTime, Pruned, Young;
    var b := LiveBurst(log, window);
    MemoryCountIsExact(log, now, window);
    RedisCountsTheBurst(log, window);
    YoungOfBurst(log, now, window);
    if b == [] || now - b[|b| - 1] >= window as real {
      AllOld(b, now, window);
    } else if now - b[0] < window as real {
      YoungSuffix(b, 0, now, window);
      YoungAtMost(b, now, window);
    } else {
      assert b == [b[0]] + b[1..];
      AllOld([b[0]], now, window);
      YoungConcat([b[0]], b[1..], now, window);
      YoungAtMost(b[1..], now, window);
    }
  }

  /** The n-th multiple of a stretch of time. */
  function Times(n: int, half: real): real {
    n as real * half
  }

  lemma TimesStep(n: int, half: real)
    ensures Times(n + 1, half) == Times(n, half) + half && Times(0, half) == 0.0
  {
  }

  lemma {:induction false} TimesGrow(i: int, j: int, half: real)
    requires i <= j && half >= 0.0
    ensures Times(i, half) <= Times(j, half)
    decreases j - i
  {
    hide Times;
    if i < j {
      TimesGrow(i, j - 1, half);
      TimesStep(j - 1, half);
    }
  }

  /** n failures, each half a window after the one before. */
  function HalfWindowApart(n: nat, half: real): (log: seq<Entry>)
    ensures |log| == n && forall k :: 0 <= k < n ==> log[k] == Failure(Times(k, half))
  {
    if n == 0 then [] else HalfWindowApart(n - 1, half) + [Failure(Times(n - 1, half))]
  }

  lemma {:induction false} HalfWindowBurst(n: nat, half: real, window: int)
    requires window > 0 && half == window as real / 2.0
    ensures var b := LiveBurst(HalfWindowApart(n, half), window);
            |b| == n && forall k :: 0 <= k < n ==> b[k] == Times(k, half)
  {
    hide Times;
    if n > 0 {
      var log := HalfWindowApart(n, half);
      assert log[..n - 1] == HalfWindowApart(n - 1, half);
      HalfWindowBurst(n - 1, half, window);
      TimesStep(n - 2, half);
    }
  }

  lemma HalvesInTime(n: nat, half: real)
    requires half >= 0.0
    ensures InTime(HalfWindowApart(n, half), Times(n, half))
  {
    hide Times, HalfWindowApart;
    var log := HalfWindowApart(n, half);
    TimesStep(0, half);
    forall i | 0 <= i < n ensures 0.0 <= log[i].at <= Times(n, half) {
      TimesGrow(0, i, half);
      TimesGrow(i, n, half);
    }
    forall i, j | 0 <= i <= j < n ensures log[i].at <= log[j].at {
      TimesGrow(i, j, half);
    }
  }

  /** Of failures half a window apart, only the last is young when the next one is due. */
  lemma OneYoungHalf(b: seq<real>, n: nat, half: real, window: int)
    requires window > 0 && half == window as real / 2.0
    requires |b| == n && forall k :: 0 <= k < n ==> b[k] == Times(k, half)
    ensures |Young(b, Times(n, half), window)| == if n == 0 then 0 else 1
  {
    hide Times;
    var now := Times(n, half);
    if n == 0 {
      AllOld(b, now, window);
    } else {
      var old_, last := b[..n - 1], [b[n - 1]];
      TimesStep(n - 1, half);
      TimesStep(n - 2, half);
      assert b == old_ + last;
      forall i | 0 <= i < n - 1 ensures now - old_[i] >= window as real {
        TimesGrow(i, n - 2, half);
      }
      AllOld(old_, now, window);
      YoungConcat(old_, last, now, window);
      YoungSuffix(last, 0, now, window);
      YoungAtMost(last, now, window);
    }
  }

  /**
    However many failures come half a window apart, Redis counts every one of
    them while the in-memory form never counts more than two: any threshold
    above two trips Redis only.
   */
  lemma SlowFailuresTripOnlyRedis(n: nat, half: real, window: int)
    requires window > 0 && half == window as real / 2.0
    ensures var log, now := HalfWindowApart(n, half), Times(n, half);
            && InTime(log, now)
            && CountAt(RedisAfter(log, window), now) + 1 == n + 1
            && |Pruned(MemoryAfter(log, window), now, window)| + 1 == if n == 0 then 1 else 2
  {
    hide Since, MemoryAfter, RedisAfter, LiveBurst, Pruned, Young, Times, InTime, HalfWindowApart;
    var log, now := HalfWindowApart(n, half), Times(n, half);
    HalvesInTime(n, half);
    HalfWindowBurst(n, half, window);
    RedisCountsTheBurst(log, window);
    MemoryCountIsExact(log, now, window);
    YoungOfBurst(log, now, window);
    OneYoungHalf(LiveBurst(log, window), n, half, window);
    TimesStep(n - 1, half);
  }

  /** What the next failure at `now` will be counted as, less one. */
  function CountNow(b: Backend, key: string, now: real, window: int): nat {
    if b.Memory? then |Pruned(FailuresOf(b, key), now, window)| else CountAt(CounterOf(b, key), now)
  }

  predicate IsFresh(b: Backend) {
    b == FRESH_MEMORY || b == FRESH_REDIS
  }

  function CounterOf(b: Backend, key: string): Option<Counter>
    requires b.Redis?
  {
    if key in b.counts then Some(b.counts[key]) else None
  }

  lemma MemoryOneCall(b: Backend, cfg: Settings, c: Call, key: string)
    requires b.Memory?
    ensures var b' := Handle(b, cfg, c).0;
            && b'.Memory?
            && FailuresOf(b', key) ==
               match EntryFor(b, cfg, c, key)
               case None => FailuresOf(b, key)
               case Some(Success(_)) => []
               case Some(Failure(at)) => Pruned(FailuresOf(b, key), at, cfg.window) + [at]
  {
  }

  lemma RedisOneCall(b: Backend, cfg: Settings, c: Call, key: string)
    requires b.Redis?
    ensures var b' := Handle(b, cfg, c).0;
            && b'.Redis?
            && CounterOf(b', key) ==
               match EntryFor(b, cfg, c, key)
               case None => CounterOf(b, key)
               case Some(Success(_)) => None
               case Some(Failure(at)) => Some(Counter(LiveCount(b.counts, key, at) + 1, at + cfg.window as real))
  {
  }

  /** Inside a run, each account's counting state is what its own recorded history left. */
  lemma {:induction false} BackendFollowsLog(b: Backend, cfg: Settings, calls: seq<Call>, key: string)
    requires IsFresh(b)
    ensures var b', log := After(b, cfg, calls), Log(b, cfg, calls, key);
            && b'.Memory? == b.Memory?
            && (b.Memory? ==> FailuresOf(b', key) == MemoryAfter(log, cfg.window))
            && (b.Redis? ==> CounterOf(b', key) == RedisAfter(log, cfg.window))
  {
    hide Handle, EntryFor, Pruned;
    if calls != [] {
      var c, init := calls[|calls| - 1], calls[..|calls| - 1];
      BackendFollowsLog(b, cfg, init, key);
      var log, log' := Log(b, cfg, init, key), Log(b, cfg, calls, key);
      assert if EntryFor(After(b, cfg, init), cfg, c, key).None? then log' == log else log'[..|log'| - 1] == log;
      if b.Memory? {
        MemoryOneCall(After(b, cfg, init), cfg, c, key);
      } else {
        RedisOneCall(After(b, cfg, init), cfg, c, key);
      }
    }
  }

  lemma CountNotBelowYoung(b: Backend, cfg: Settings, calls: seq<Call>, key: string, now: real)
    requires IsFresh(b) && ClockRuns(calls) && (calls != [] ==> calls[|calls| - 1].at <= now)
    ensures CountNow(After(b, cfg, calls), key, now, cfg.window) >=
            |Young(Since(Log(b, cfg, calls, key)), now, cfg.window)|
  {
    var log := Log(b, cfg, calls, key);
    BackendFollowsLog(b, cfg, calls, key);
    LogInTime(b, cfg, calls, key, now);
    if b.Memory? { MemoryCountIsExact(log, now, cfg.window); } else { RedisCountsTheYoung(log, now, cfg.window); }
  }

  // ------------------------------------------------------- the bound

  /** The threshold that takes effect: a limit below one still lets one failure happen. */
  function Cap(cfg: Settings): int {
    if cfg.maxFailures < 1 then 1 else cfg.maxFailures
  }

  ghost predicate OnlyFailures(log: seq<Entry>, i: nat, j: nat)
    requires i <= j < |log|
  {
    forall k :: i <= k <= j ==> log[k].Failure?
  }

  /** No stretch of failures without a success that fits in one window is longer than the cap. */
  ghost predicate Bounded(cfg: Settings, log: seq<Entry>) {
    forall i, j :: 0 <= i <= j < |log| && OnlyFailures(log, i, j) && log[j].at - log[i].at < cfg.window as real
      ==> j - i + 1 <= Cap(cfg)
  }

  /** Consecutive failures of which the first filled the window are at least a lock apart. */
  ghost predicate LocksHold(cfg: Settings, log: seq<Entry>) {
    forall j :: 0 < j < |log| && log[j].Failure? && Full(cfg, log[..j]) ==> log[j].at >= log[j - 1].at + cfg.lockFor as real
  }

  /** The last entry is a failure that brings the young ones up to the threshold. */
  ghost predicate Full(cfg: Settings, log: seq<Entry>) {
    log != [] && log[|log| - 1].Failure? && |Young(Since(log), log[|log| - 1].at, cfg.window)| >= cfg.maxFailures
  }

  lemma {:induction false} SinceCoversStretch(log: seq<Entry>, i: nat)
    requires i < |log| && OnlyFailures(log, i, |log| - 1)
    ensures var f := Since(log);
            |f| >= |log| - i && forall k :: i <= k < |log| ==> f[|f| - |log| + k] == log[k].at
  {
    if i < |log| - 1 { SinceCoversStretch(log[..|log| - 1], i); }
  }

  lemma LocksBoundFailures(cfg: Settings, log: seq<Entry>, now: real)
    requires InTime(log, now) && LocksHold(cfg, log) && cfg.lockFor >= cfg.window > 0
    ensures Bounded(cfg, log)
  {
    forall i, j | 0 <= i < j < |log| && OnlyFailures(log, i, j) && log[j].at - log[i].at < cfg.window as real
      ensures j - i + 1 <= Cap(cfg)
    {
      StretchBounded(cfg, log, i, j, now);
    }
  }

  lemma StretchBounded(cfg: Settings, log: seq<Entry>, i: nat, j: nat, now: real)
    requires InTime(log, now) && LocksHold(cfg, log) && cfg.lockFor >= cfg.window > 0
    requires i < j < |log| && OnlyFailures(log, i, j) && log[j].at - log[i].at < cfg.window as real
    ensures j - i < cfg.maxFailures
  {
    hide LocksHold, Young, Since;
    var before := log[..j];
    assert log[i].at <= log[j - 1].at <= log[j].at;
    if Full(cfg, before) { LockGap(cfg, log, j); }
    YoungStretch(before, i, cfg.window, now);
  }

  lemma LockGap(cfg: Settings, log: seq<Entry>, j: nat)
    requires LocksHold(cfg, log) && 0 < j < |log| && log[j].Failure? && Full(cfg, log[..j])
    ensures log[j].at >= log[j - 1].at + cfg.lockFor as real
  {
    hide Full;
  }

  lemma YoungStretch(log: seq<Entry>, i: nat, window: int, now: real)
    requires InTime(log, now) && i < |log| && OnlyFailures(log, i, |log| - 1)
    requires log[|log| - 1].at - log[i].at < window as real
    ensures |Young(Since(log), log[|log| - 1].at, window)| >= |log| - i
  {
    SinceCoversStretch(log, i);
    var f, last := Since(log), log[|log| - 1].at;
    var k := |f| - |log| + i;
    forall m | k <= m < |f| ensures last - f[m] < window as real {
      assert f[m] == f[|f| - |log| + (m - |f| + |log|)];
      assert log[i].at <= log[m - |f| + |log|].at;
    }
    YoungSuffix(f, k, last, window);
  }

  /** A recorded failure that reaches the threshold locks the account from that instant on. */
  lemma FailureLocks(b: Backend, cfg: Settings, c: Call, now: real)
    requires c.Attempt? && Handle(b, cfg, c).1 == Some(Failure(c.at))
    requires CountNow(b, c.key, c.at, cfg.window) + 1 >= cfg.maxFailures
    requires 0.0 <= c.at <= now < c.at + cfg.lockFor as real
    ensures IsLocked(Handle(b, cfg, c).0, c.key, now).1
  {
  }

  /** A call that records nothing for an account leaves its lock as it was. */
  lemma LockUntouched(b: Backend, cfg: Settings, c: Call, key: string, now: real)
    requires EntryFor(b, cfg, c, key).None?
    ensures IsLocked(Handle(b, cfg, c).0, key, now).1 == IsLocked(b, key, now).1
  {
  }

  /** While the lock from a filling failure lasts, the backend says locked. */
  lemma {:induction false} FullMeansLocked(b: Backend, cfg: Settings, calls: seq<Call>, key: string, now: real)
    requires IsFresh(b) && ClockRuns(calls) && (calls != [] ==> calls[|calls| - 1].at <= now)
    requires Full(cfg, Log(b, cfg, calls, key))
    ensures var log := Log(b, cfg, calls, key);
            now < log[|log| - 1].at + cfg.lockFor as real ==> IsLocked(After(b, cfg, calls), key, now).1
  {
    hide Handle, EntryFor, Since, Young, Full, IsLocked, CountNow;
    LastCall(b, cfg, calls, key, now);
    var c, init := calls[|calls| - 1], calls[..|calls| - 1];
    var w, log := After(b, cfg, init), Log(b, cfg, init, key);
    if EntryFor(w, cfg, c, key).None? {
      assert Log(b, cfg, calls, key) == log;
      FullMeansLocked(b, cfg, init, key, now);
      LockUntouched(w, cfg, c, key, now);
    } else {
      assert Log(b, cfg, calls, key) == log + [EntryFor(w, cfg, c, key).value];
      CountNotBelowYoung(b, cfg, init, key, c.at);
      FillingFailureLocks(w, cfg, c, key, log, now);
    }
  }

  /** A nonempty history has a last call, and the calls before it are in time for it. */
  lemma LastCall(b: Backend, cfg: Settings, calls: seq<Call>, key: string, now: real)
    requires ClockRuns(calls) && (calls != [] ==> calls[|calls| - 1].at <= now) && Full(cfg, Log(b, cfg, calls, key))
    ensures calls != []
    ensures var c, init := calls[|calls| - 1], calls[..|calls| - 1];
            0.0 <= c.at <= now && ClockRuns(init) && (init != [] ==> init[|init| - 1].at <= c.at)
  {
    hide Handle, EntryFor;
    assert |calls| > 1 ==> calls[|calls| - 2].at <= calls[|calls| - 1].at;
  }

  lemma FillingFailureLocks(w: Backend, cfg: Settings, c: Call, key: string, log: seq<Entry>, now: real)
    requires EntryFor(w, cfg, c, key).Some? && Full(cfg, log + [EntryFor(w, cfg, c, key).value])
    requires CountNow(w, key, c.at, cfg.window) >= |Young(Since(log), c.at, cfg.window)|
    requires 0.0 <= c.at <= now
    ensures now < EntryFor(w, cfg, c, key).value.at + cfg.lockFor as real ==> IsLocked(Handle(w, cfg, c).0, key, now).1
  {
    hide Young, IsLocked, CountNow;
    var entry := EntryFor(w, cfg, c, key).value;
    FailureIsLast(cfg, log, entry);
    assert entry.at == c.at && Handle(w, cfg, c).1 == Some(Failure(c.at));
    if now < c.at + cfg.lockFor as real { FailureLocks(w, cfg, c, now); }
  }

  lemma FailureIsLast(cfg: Settings, log: seq<Entry>, entry: Entry)
    requires Full(cfg, log + [entry])
    ensures entry.Failure? && |Young(Since(log), entry.at, cfg.window)| + 1 >= cfg.maxFailures
  {
    hide Young;
    assert (log + [entry])[..|log|] == log;
    YoungSnoc(Since(log), entry.at, cfg.window);
  }

  lemma YoungSnoc(times: seq<real>, t: real, window: int)
    ensures |Young(times + [t], t, window)| <= |Young(times, t, window)| + 1
  {
    assert (times + [t])[..|times|] == times;
  }

  lemma {:induction false} RunsHoldLocks(b: Backend, cfg: Settings, calls: seq<Call>, key: string)
    requires IsFresh(b) && ClockRuns(calls)
    ensures LocksHold(cfg, Log(b, cfg, calls, key))
  {
    hide Handle, EntryFor, LocksHold, IsLocked, Full;
    if calls == [] {
      NothingToHold(cfg);
    } else {
      var c, init := calls[|calls| - 1], calls[..|calls| - 1];
      RunsHoldLocks(b, cfg, init, key);
      var log, entry := Log(b, cfg, init, key), EntryFor(After(b, cfg, init), cfg, c, key);
      if entry.Some? {
        if entry.value.Failure? && Full(cfg, log) { FullMeansLater(b, cfg, calls, key); }
        LocksHoldSnoc(cfg, log, entry.value);
        assert Log(b, cfg, calls, key) == log + [entry.value];
      } else {
        assert Log(b, cfg, calls, key) == log;
      }
    }
  }

  lemma NothingToHold(cfg: Settings)
    ensures LocksHold(cfg, [])
  {
  }

  /** A failure recorded after one that filled the window comes when the lock has run out. */
  lemma FullMeansLater(b: Backend, cfg: Settings, calls: seq<Call>, key: string)
    requires IsFresh(b) && ClockRuns(calls) && calls != []
    requires var c, init := calls[|calls| - 1], calls[..|calls| - 1];
             EntryFor(After(b, cfg, init), cfg, c, key).Some? && Full(cfg, Log(b, cfg, init, key))
    ensures var c, init := calls[|calls| - 1], calls[..|calls| - 1];
            var entry, log := EntryFor(After(b, cfg, init), cfg, c, key).value, Log(b, cfg, init, key);
            log != [] && (entry.Failure? ==> entry.at >= log[|log| - 1].at + cfg.lockFor as real)
  {
    hide Young, Since, After, Log;
    var c, init := calls[|calls| - 1], calls[..|calls| - 1];
    assert |calls| > 1 ==> calls[|calls| - 2].at <= c.at;
    FullMeansLocked(b, cfg, init, key, c.at);
  }

  lemma LocksHoldSnoc(cfg: Settings, log: seq<Entry>, entry: Entry)
    requires LocksHold(cfg, log)
    requires entry.Failure? && Full(cfg, log) ==> log != [] && entry.at >= log[|log| - 1].at + cfg.lockFor as real
    ensures LocksHold(cfg, log + [entry])
  {
    hide Full;
    var log' := log + [entry];
    forall j | 0 < j < |log'| && log'[j].Failure? && Full(cfg, log'[..j])
      ensures log'[j].at >= log'[j - 1].at + cfg.lockFor as real
    {
      assert log'[..j] == log[..j];
      assert log[..|log|] == log;
    }
  }

  // ------------------------------------------- what the gate answers

  /** What the last failure of a history counted as: with the young ones before it in memory, the burst in Redis. */
  function LastCount(b: Backend, log: seq<Entry>, window: int): nat
    requires log != [] && log[|log| - 1].Failure?
  {
    if b.Memory? then |Young(Since(log[..|log| - 1]), log[|log| - 1].at, window)| + 1 else |LiveBurst(log, window)|
  }

  /** The last thing recorded is a failure that reached the threshold, and its lock is not over yet. */
  predicate Held(b: Backend, cfg: Settings, log: seq<Entry>, now: real) {
    && log != [] && log[|log| - 1].Failure?
    && LastCount(b, log, cfg.window) >= cfg.maxFailures
    && now < log[|log| - 1].at + cfg.lockFor as real
  }

  /** One call on an account: what it records and whether the account is locked afterwards. */
  lemma LockAfterCall(w: Backend, cfg: Settings, c: Call, key: string, now: real)
    requires 0.0 <= c.at <= now
    ensures var locked := IsLocked(Handle(w, cfg, c).0, key, now).1;
            match EntryFor(w, cfg, c, key)
            case None => locked == IsLocked(w, key, now).1
            case Some(Success(at)) => at == c.at && !locked
            case Some(Failure(at)) =>
              && at == c.at && !IsLocked(w, key, c.at).1
              && (locked <==> CountNow(w, key, at, cfg.window) + 1 >= cfg.maxFailures && now < at + cfg.lockFor as real)
  {
    hide Pruned;
  }

  /** What the failure just recorded counted as, from the history alone. */
  lemma CountIsLastCount(b: Backend, cfg: Settings, calls: seq<Call>, key: string, at: real)
    requires IsFresh(b) && ClockRuns(calls) && at >= 0.0 && (calls != [] ==> calls[|calls| - 1].at <= at)
    ensures CountNow(After(b, cfg, calls), key, at, cfg.window) + 1 ==
            LastCount(b, Log(b, cfg, calls, key) + [Failure(at)], cfg.window)
  {
    hide Log, After, Pruned, MemoryAfter, LiveBurst, RedisAfter, Young;
    var log := Log(b, cfg, calls, key);
    var log' := log + [Failure(at)];
    assert log'[..|log|] == log;
    BackendFollowsLog(b, cfg, calls, key);
    LogInTime(b, cfg, calls, key, at);
    if b.Memory? {
      MemoryCountIsExact(log, at, cfg.window);
    } else {
      RedisCountsTheBurst(log, cfg.window);
      BurstGrows(log, at, cfg.window);
    }
  }

  lemma BurstGrows(log: seq<Entry>, at: real, window: int)
    ensures |LiveBurst(log + [Failure(at)], window)| ==
            (var b := LiveBurst(log, window); if b != [] && at - b[|b| - 1] < window as real then |b| else 0) + 1
  {
    assert (log + [Failure(at)])[..|log|] == log;
  }

  lemma LogSnoc(b: Backend, cfg: Settings, calls: seq<Call>, c: Call, key: string)
    ensures var entry := EntryFor(After(b, cfg, calls), cfg, c, key);
            Log(b, cfg, calls + [c], key) ==
            if entry.Some? then Log(b, cfg, calls, key) + [entry.value] else Log(b, cfg, calls, key)
    ensures After(b, cfg, calls + [c]) == Handle(After(b, cfg, calls), cfg, c).0
  {
    hide Handle, EntryFor;
    assert (calls + [c])[..|calls|] == calls;
  }

  lemma FreshIsFree(b: Backend, cfg: Settings, key: string, now: real)
    requires IsFresh(b) && now >= 0.0
    ensures !IsLocked(b, key, now).1 && !Held(b, cfg, [], now)
  {
  }

  /**
    In any run an account reads locked exactly while its own history holds it:
    the last thing recorded is a failure that reached the threshold, less than a
    lock ago. A success or a password reset ends every lock.
   */
  lemma {:induction false} LockedIffHeld(b: Backend, cfg: Settings, calls: seq<Call>, key: string, now: real)
    requires IsFresh(b) && ClockRuns(calls) && now >= 0.0 && (calls != [] ==> calls[|calls| - 1].at <= now)
    ensures IsLocked(After(b, cfg, calls), key, now).1 <==> Held(b, cfg, Log(b, cfg, calls, key), now)
  {
    hide Handle, EntryFor, IsLocked, LastCount, CountNow, Log, Held;
    if calls == [] {
      FreshIsFree(b, cfg, key, now);
      NoCallsNoLog(b, cfg, key);
    } else {
      var c, init := calls[|calls| - 1], calls[..|calls| - 1];
      assert init + [c] == calls;
      assert |calls| > 1 ==> calls[|calls| - 2].at <= c.at;
      LogSnoc(b, cfg, init, c, key);
      LockAfterCall(After(b, cfg, init), cfg, c, key, now);
      LockedIffHeld(b, cfg, init, key, now);
      CountIsLastCount(b, cfg, init, key, c.at);
      HeldSnoc(b, cfg, Log(b, cfg, init, key), c.at, now);
    }
  }

  lemma HeldSnoc(b: Backend, cfg: Settings, log: seq<Entry>, at: real, now: real)
    ensures !Held(b, cfg, log + [Success(at)], now)
    ensures Held(b, cfg, log + [Failure(at)], now) <==>
            LastCount(b, log + [Failure(at)], cfg.window) >= cfg.maxFailures && now < at + cfg.lockFor as real
  {
    hide LastCount;
  }

  lemma NoCallsNoLog(b: Backend, cfg: Settings, key: string)
    ensures Log(b, cfg, [], key) == []
  {
  }

  /**
    What the gate answers after any run, right password or not: while its history
    holds the account, every attempt is turned away and leaves no trace; otherwise
    the password decides, and what it decides is recorded.
   */
  lemma GateAnswers(b: Backend, cfg: Settings, calls: seq<Call>, key: string, at: real, ok: bool)
    requires IsFresh(b) && ClockRuns(calls) && at >= 0.0 && (calls != [] ==> calls[|calls| - 1].at <= at)
    ensures var w, log := After(b, cfg, calls), Log(b, cfg, calls, key);
            var log' := Log(b, cfg, calls + [Attempt(key, at, ok)], key);
            if Held(b, cfg, log, at) then Signin(w, cfg, key, at, ok).1 == LockedOut && log' == log
            else if ok then Signin(w, cfg, key, at, ok).1 == Passed && log' == log + [Success(at)]
            else Signin(w, cfg, key, at, ok).1 == Failed && log' == log + [Failure(at)]
  {
    hide Held, Log, After, IsLocked, Fail, RecordSuccess;
    LockedIffHeld(b, cfg, calls, key, at);
    LogSnoc(b, cfg, calls, Attempt(key, at, ok), key);
    var w := After(b, cfg, calls);
    assert EntryFor(w, cfg, Attempt(key, at, ok), key) ==
           if IsLocked(w, key, at).1 then None else if ok then Some(Success(at)) else Some(Failure(at));
  }

  /** A completed password reset is always recorded as a success. */
  lemma ResetClears(b: Backend, cfg: Settings, calls: seq<Call>, key: string, at: real)
    ensures Log(b, cfg, calls + [Reset(key, at)], key) == Log(b, cfg, calls, key) + [Success(at)]
  {
    hide RecordSuccess;
    LogSnoc(b, cfg, calls, Reset(key, at), key);
  }

  /** On either backend a failure that fills the window holds the account, right password or not, for the whole lock. */
  lemma FullIsHeld(b: Backend, cfg: Settings, log: seq<Entry>, now: real)
    requires cfg.window > 0 && Full(cfg, log) && now < log[|log| - 1].at + cfg.lockFor as real && InTime(log, now)
    ensures Held(b, cfg, log, now)
  {
    hide Since, LiveBurst, MemoryAfter, RedisAfter;
    var init, at := log[..|log| - 1], log[|log| - 1].at;
    assert InTime(log, at) && InTime(init, at);
    assert log == init + [Failure(at)];
    SinceSnoc(init, at);
    YoungSnoc(Since(init), at, cfg.window);
    RedisCountsTheBurst(log, cfg.window);
    RedisCountsTheYoung(log, at, cfg.window);
  }

  lemma SinceSnoc(init: seq<Entry>, at: real)
    ensures Since(init + [Failure(at)]) == Since(init) + [at]
  {
    assert (init + [Failure(at)])[..|init|] == init;
  }

  // ------------------------------------------- exactly when it holds

  /** Every account in every run of the gate over this backend keeps the bound. */
  ghost predicate GateBounds(b: Backend, cfg: Settings) {
    forall calls: seq<Call>, key: string :: ClockRuns(calls) ==> Bounded(cfg, Log(b, cfg, calls, key))
  }

  function Burst(key: string, n: nat): (r: seq<Call>)
    ensures |r| == n && forall i :: 0 <= i < n ==> r[i] == Attempt(key, 0.0, false)
  {
    seq(n, _ => Attempt(key, 0.0, false))
  }

  lemma {:induction false} BurstRecorded(b: Backend, cfg: Settings, key: string, n: nat)
    requires IsFresh(b) && cfg.window > 0 && n <= Cap(cfg)
    ensures var log := Log(b, cfg, Burst(key, n), key);
            |log| == n && forall i :: 0 <= i < n ==> log[i] == Failure(0.0)
    ensures n < Cap(cfg) ==> !IsLocked(After(b, cfg, Burst(key, n)), key, 0.0).1
    ensures forall now :: now >= 0.0 && now >= cfg.lockFor as real ==> !IsLocked(After(b, cfg, Burst(key, n)), key, now).1
  {
    hide Handle, CountNow, IsLocked;
    if n == 0 {
      FreshIsUnlocked(b, key);
    } else {
      var init := Burst(key, n)[..n - 1];
      assert init == Burst(key, n - 1);
      BurstRecorded(b, cfg, key, n - 1);
      BurstCount(b, cfg, init, key);
      BurstStep(After(b, cfg, init), cfg, key, 0.0);
      forall now | now >= 0.0 && now >= cfg.lockFor as real
        ensures !IsLocked(After(b, cfg, Burst(key, n)), key, now).1
      {
        BurstStep(After(b, cfg, init), cfg, key, now);
      }
    }
  }

  lemma FreshIsUnlocked(b: Backend, key: string)
    requires IsFresh(b)
    ensures forall now :: now >= 0.0 ==> !IsLocked(b, key, now).1
  {
  }

  /** One more wrong attempt at instant 0 is recorded, and locks no longer than configured. */
  ghost predicate BurstGoesOn(w: Backend, cfg: Settings, key: string, now: real) {
    var (w', entry) := Handle(w, cfg, Attempt(key, 0.0, false));
    && entry == Some(Failure(0.0))
    && (CountNow(w, key, 0.0, cfg.window) + 1 < Cap(cfg) ==> !IsLocked(w', key, 0.0).1)
    && (now >= 0.0 && now >= cfg.lockFor as real ==> !IsLocked(w', key, now).1)
  }

  lemma BurstStep(w: Backend, cfg: Settings, key: string, now: real)
    requires !IsLocked(w, key, 0.0).1
    ensures BurstGoesOn(w, cfg, key, now)
  {
    hide Pruned;
  }

  lemma BurstCount(b: Backend, cfg: Settings, calls: seq<Call>, key: string)
    requires IsFresh(b) && cfg.window > 0
    requires var log := Log(b, cfg, calls, key); forall i :: 0 <= i < |log| ==> log[i] == Failure(0.0)
    ensures CountNow(After(b, cfg, calls), key, 0.0, cfg.window) == |Log(b, cfg, calls, key)|
  {
    hide Handle, After, Log;
    BackendFollowsLog(b, cfg, calls, key);
    CountAtBurst(Log(b, cfg, calls, key), cfg.window);
  }

  lemma {:induction false} CountAtBurst(log: seq<Entry>, window: int)
    requires window > 0 && forall i :: 0 <= i < |log| ==> log[i] == Failure(0.0)
    ensures |MemoryAfter(log, window)| == |log| && forall i :: 0 <= i < |log| ==> MemoryAfter(log, window)[i] == 0.0
    ensures CountAt(RedisAfter(log, window), 0.0) == |log|
  {
    if log != [] { CountAtBurst(log[..|log| - 1], window); }
  }

  /**
    Through the gate, on either backend, every window-long stretch without a
    recorded success holds at most the capped number of failures, exactly when
    the lock lasts at least as long as the failure window.
   */
  lemma BoundIffLockCoversWindow(b: Backend, cfg: Settings)
    requires IsFresh(b) && cfg.window > 0
    ensures GateBounds(b, cfg) <==> cfg.lockFor >= cfg.window
  {
    if cfg.lockFor >= cfg.window {
      forall calls: seq<Call>, key: string | ClockRuns(calls) ensures Bounded(cfg, Log(b, cfg, calls, key)) {
        var now := if calls == [] then 0.0 else calls[|calls| - 1].at;
        LogInTime(b, cfg, calls, key, now);
        RunsHoldLocks(b, cfg, calls, key);
        LocksBoundFailures(cfg, Log(b, cfg, calls, key), now);
      }
    } else {
      OneFailureTooMany(b, cfg);
    }
  }

  lemma AttemptRecorded(w: Backend, cfg: Settings, key: string, at: real)
    requires !IsLocked(w, key, at).1
    ensures Handle(w, cfg, Attempt(key, at, false)).1 == Some(Failure(at))
  {
  }

  lemma OneFailureTooMany(b: Backend, cfg: Settings)
    requires IsFresh(b) && cfg.window > 0 && cfg.lockFor < cfg.window
    ensures !GateBounds(b, cfg)
  {
    hide Handle, IsLocked, Since, Young;
    var n := Cap(cfg);
    var at := if cfg.lockFor < 0 then 0.0 else cfg.lockFor as real;
    var calls := Burst("k", n) + [Attempt("k", at, false)];
    BurstRecorded(b, cfg, "k", n);
    assert calls[..|calls| - 1] == Burst("k", n);
    AttemptRecorded(After(b, cfg, Burst("k", n)), cfg, "k", at);
    var log := Log(b, cfg, calls, "k");
    assert |log| == n + 1 && log[n] == Failure(at);
    assert OnlyFailures(log, 0, n);
    assert ClockRuns(calls);
    assert !Bounded(cfg, log);
  }

  // ------------------------------------------------------- the two classes

  class MemoryBackend {
    var failures: map<string, seq<real>>
    var locks: map<string, real>

    function View(): Backend
      reads this
    {
      Memory(failures, locks)
    }

    constructor ()
      ensures View() == FRESH_MEMORY
    {
      failures, locks := map[], map[];
    }

    method CheckLocked(key: string, now: real) returns (locked: bool)
      modifies this
      ensures (View(), locked) == IsLocked(old(View()), key, now)
    {
      var until := if key in locks then locks[key] else 0.0;
      if until > now {
        return true;
      }
      if until != 0.0 {
        locks := locks - {key};
      }
      return false;
    }

    method AddFailure(key: string, now: real, window: int) returns (count: nat)
      modifies this
      ensures (View(), count) == RecordFailure(old(View()), key, now, window)
    {
      var bucket := if key in failures then failures[key] else [];
      while bucket != [] && now - bucket[0] >= window as real
        invariant Pruned(bucket, now, window) == Pruned(FailuresOf(old(View()), key), now, window)
        decreases |bucket|
      {
        bucket := bucket[1..];
      }
      bucket := bucket + [now];
      failures := failures[key := bucket];
      return |bucket|;
    }

    method AddSuccess(key: string)
      modifies this
      ensures View() == RecordSuccess(old(View()), key)
    {
      failures := failures - {key};
      locks := locks - {key};
    }

    method LockUntil(key: string, now: real, ttl: int)
      modifies this
      ensures View() == SetLock(old(View()), key, now, ttl)
    {
      locks := locks[key := now + ttl as real];
    }

    method AttemptSignin(cfg: Settings, key: string, now: real, ok: bool) returns (answer: Answer)
      modifies this
      ensures (View(), answer) == Signin(old(View()), cfg, key, now, ok)
    {
      var locked := CheckLocked(key, now);
      if locked {
        return LockedOut;
      }
      if !ok {
        var count := AddFailure(key, now, cfg.window);
        if count >= cfg.maxFailures {
          LockUntil(key, now, cfg.lockFor);
        }
        return Failed;
      }
      AddSuccess(key);
      return Passed;
    }
  }

  class RedisBackend {
    var counts: map<string, Counter>
    var lockKeys: map<string, real>

    function View(): Backend
      reads this
    {
      Redis(counts, lockKeys)
    }

    constructor ()
      ensures View() == FRESH_REDIS
    {
      counts, lockKeys := map[], map[];
    }

    method AddFailure(key: string, now: real, window: int) returns (count: nat)
      modifies this
      ensures (View(), count) == RecordFailure(old(View()), key, now, window)
    {
      count := LiveCount(counts, key, now) + 1;
      counts := counts[key := Counter(count, now + window as real)];
    }

    method AttemptSignin(cfg: Settings, key: string, now: real, ok: bool) returns (answer: Answer)
      modifies this
      ensures (View(), answer) == Signin(old(View()), cfg, key, now, ok)
    {
      if key in lockKeys && now < lockKeys[key] {
        return LockedOut;
      }
      if !ok {
        var count := AddFailure(key, now, cfg.window);
        if count >= cfg.maxFailures && cfg.lockFor > 0 {
          lockKeys := lockKeys[key := now + cfg.lockFor as real];
        }
        return Failed;
      }
      counts := counts - {key};
      lockKeys := lockKeys - {key};
      return Passed;
    }
  }
}

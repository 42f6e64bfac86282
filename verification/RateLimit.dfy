/**
  The request rate limiter: a sliding window kept in a deque, and the
  fixed-window Redis counter. Every call carries its clock reading.
 */
module RateLimit {
  import opened Windows

  /** One check_rate_limit call. A limit of zero or less means unlimited. */
  datatype Call = Call(key: string, at: real, limit: int)

  type Hits = map<string, seq<real>>

  ghost predicate ClockRuns(calls: seq<Call>) {
    && (forall i :: 0 <= i < |calls| ==> calls[i].at >= 0.0)
    && (forall i, j :: 0 <= i <= j < |calls| ==> calls[i].at <= calls[j].at)
  }

  // ------------------------------------------------------- sliding window

  function Bucket(hits: Hits, key: string): seq<real> {
    if key in hits then hits[key] else []
  }

  function OverLimitStep(hits: Hits, c: Call, window: int): (Hits, bool) {
    var kept := Pruned(Bucket(hits, c.key), c.at, window);
    if |kept| >= c.limit then (hits[c.key := kept], true) else (hits[c.key := kept + [c.at]], false)
  }

  /** check_rate_limit: the new deques, and whether the call is refused. */
  function Check(hits: Hits, c: Call, window: int): (Hits, bool) {
    if c.limit <= 0 then (hits, false) else OverLimitStep(hits, c, window)
  }

  function HitsAfter(calls: seq<Call>, window: int): Hits {
    if calls == [] then map[]
    else Check(HitsAfter(calls[..|calls| - 1], window), calls[|calls| - 1], window).0
  }

  /** Times at which limited calls for a key were let through. */
  function Accepted(calls: seq<Call>, key: string, window: int): seq<real> {
    if calls == [] then []
    else
      var c, init := calls[|calls| - 1], calls[..|calls| - 1];
      var before := Accepted(init, key, window);
      if c.key == key && c.limit > 0 && !Check(HitsAfter(init, window), c, window).1 then before + [c.at] else before
  }

  lemma {:induction false} AcceptedInOrder(calls: seq<Call>, key: string, window: int)
    requires ClockRuns(calls)
    ensures Sorted(Accepted(calls, key, window))
    ensures forall i :: 0 <= i < |Accepted(calls, key, window)| ==>
              calls != [] && 0.0 <= Accepted(calls, key, window)[i] <= calls[|calls| - 1].at
  {
    if calls != [] {
      AcceptedInOrder(calls[..|calls| - 1], key, window);
      assert |calls| > 1 ==> calls[|calls| - 2].at <= calls[|calls| - 1].at;
    }
  }

  /** From the last call on, pruning the stored deque is pruning the whole list of accepted times. */
  lemma {:induction false} DequeForgetsOnlyOld(calls: seq<Call>, key: string, now: real, window: int)
    requires ClockRuns(calls) && (calls != [] ==> calls[|calls| - 1].at <= now)
    ensures Pruned(Bucket(HitsAfter(calls, window), key), now, window) == Pruned(Accepted(calls, key, window), now, window)
  {
    if calls != [] {
      var c, init := calls[|calls| - 1], calls[..|calls| - 1];
      DequeForgetsOnlyOld(init, key, now, window);
      if c.key == key && c.limit > 0 {
        var b, acc := Bucket(HitsAfter(init, window), key), Accepted(init, key, window);
        PrunedLater(b, c.at, now, window);
        PrunedSnoc(Pruned(b, c.at, window), c.at, now, window);
        PrunedSnoc(acc, c.at, now, window);
      }
    }
  }

  /**
    After pruning, the deque is exactly the accepted calls younger than the
    window, so a limited call is refused exactly when `limit` of those exist.
   */
  lemma SlidingWindowIsExact(calls: seq<Call>, c: Call, window: int)
    requires ClockRuns(calls + [c])
    ensures var young := Young(Accepted(calls, c.key, window), c.at, window);
            && Pruned(Bucket(HitsAfter(calls, window), c.key), c.at, window) == young
            && (Check(HitsAfter(calls, window), c, window).1 <==> c.limit > 0 && |young| >= c.limit)
  {
    Prefix(calls, c);
    DequeForgetsOnlyOld(calls, c.key, c.at, window);
    AcceptedInOrder(calls, c.key, window);
    PrunedIsYoung(Accepted(calls, c.key, window), c.at, window);
  }

  lemma Prefix(calls: seq<Call>, c: Call)
    requires ClockRuns(calls + [c])
    ensures ClockRuns(calls) && (calls != [] ==> calls[|calls| - 1].at <= c.at)
  {
    var all := calls + [c];
    assert forall i :: 0 <= i < |calls| ==> all[i] == calls[i];
    assert all[|calls|] == c;
    if calls != [] { assert all[|calls| - 1].at <= all[|calls|].at; }
  }

  /** However calls arrive, no interval one window long lets more than `limit` calls of a key through. */
  lemma {:induction false} SlidingWindowBound(calls: seq<Call>, key: string, limit: int, s: real, window: int)
    requires ClockRuns(calls) && limit >= 1
    requires forall i :: 0 <= i < |calls| && calls[i].key == key ==> calls[i].limit <= limit
    ensures CountIn(Accepted(calls, key, window), s, window) <= limit
  {
    if calls != [] {
      var c, init := calls[|calls| - 1], calls[..|calls| - 1];
      SlidingWindowBound(init, key, limit, s, window);
      assert init + [c] == calls;
      SlidingWindowIsExact(init, c, window);
      if s <= c.at < s + window as real {
        InWindowIsYoung(Accepted(init, c.key, window), s, c.at, window);
      }
    }
  }

  class MemoryBackend {
    var hits: Hits

    constructor ()
      ensures hits == map[]
    {
      hits := map[];
    }

    method OverLimit(key: string, limit: int, window: int, now: real) returns (over: bool)
      modifies this
      ensures (hits, over) == OverLimitStep(old(hits), Call(key, now, limit), window)
    {
      var bucket := if key in hits then hits[key] else [];
      while bucket != [] && now - bucket[0] >= window as real
        invariant Pruned(bucket, now, window) == Pruned(Bucket(old(hits), key), now, window)
        decreases |bucket|
      {
        bucket := bucket[1..];
      }
      if |bucket| >= limit {
        hits := hits[key := bucket];
        return true;
      }
      hits := hits[key := bucket + [now]];
      return false;
    }

    /** check_rate_limit over this backend: true means the request gets a 429. */
    method CheckRateLimit(key: string, limit: int, window: int, now: real) returns (refused: bool)
      modifies this
      ensures (hits, refused) == Check(old(hits), Call(key, now, limit), window)
    {
      if limit <= 0 {
        return false;
      }
      refused := OverLimit(key, limit, window, now);
    }
  }

  // ------------------------------------------------------- fixed window

  /** Counters by rate-limit key and aligned window number. */
  type Counters = map<(string, int), Counter>

  function WindowOf(t: real, window: int): int
    requires window > 0
  {
    t.Floor / window
  }

  /** INCR then EXPIRE on the current bucket, and whether the new count is over the limit. */
  function Bump(cs: Counters, c: Call, window: int): (Counters, bool)
    requires window > 0
  {
    var k := (c.key, WindowOf(c.at, window));
    var count := LiveCount(cs, k, c.at) + 1;
    (cs[k := Counter(count, c.at + window as real)], count > c.limit)
  }

  function CheckFixed(cs: Counters, c: Call, window: int): (Counters, bool)
    requires window > 0
  {
    if c.limit <= 0 then (cs, false) else Bump(cs, c, window)
  }

  function CountersAfter(calls: seq<Call>, window: int): Counters
    requires window > 0
  {
    if calls == [] then map[]
    else CheckFixed(CountersAfter(calls[..|calls| - 1], window), calls[|calls| - 1], window).0
  }

  function AcceptedFixed(calls: seq<Call>, key: string, window: int): seq<real>
    requires window > 0
  {
    if calls == [] then []
    else
      var c, init := calls[|calls| - 1], calls[..|calls| - 1];
      var before := AcceptedFixed(init, key, window);
      if c.key == key && c.limit > 0 && !CheckFixed(CountersAfter(init, window), c, window).1
      then before + [c.at] else before
  }

  /** Limited calls of a key, let through or not, in one aligned window. */
  function Arrivals(calls: seq<Call>, key: string, n: int, window: int): nat
    requires window > 0
  {
    if calls == [] then 0
    else
      var c := calls[|calls| - 1];
      Arrivals(calls[..|calls| - 1], key, n, window)
      + if c.key == key && c.limit > 0 && WindowOf(c.at, window) == n then 1 else 0
  }

  function CountWindow(times: seq<real>, n: int, window: int): nat
    requires window > 0
  {
    if times == [] then 0
    else CountWindow(times[..|times| - 1], n, window) + if WindowOf(times[|times| - 1], window) == n then 1 else 0
  }

  lemma WindowSpan(t: real, window: int)
    requires window > 0
    ensures var n := WindowOf(t, window);
            (n * window) as real <= t < (n * window + window) as real
  {
    var n := WindowOf(t, window);
    assert t.Floor == n * window + t.Floor % window;
  }

  /**
    Inside its aligned window a counter never expires: at any later instant of
    that window it still counts every limited call of the key in the window.
   */
  lemma {:induction false} CounterOutlivesItsWindow(calls: seq<Call>, key: string, now: real, window: int)
    requires window > 0 && ClockRuns(calls) && (calls != [] ==> calls[|calls| - 1].at <= now)
    ensures var n := WindowOf(now, window);
            LiveCount(CountersAfter(calls, window), (key, n), now) == Arrivals(calls, key, n, window)
  {
    if calls != [] {
      var c, init := calls[|calls| - 1], calls[..|calls| - 1];
      var n := WindowOf(now, window);
      if c.key == key && c.limit > 0 && WindowOf(c.at, window) == n {
        CounterOutlivesItsWindow(init, key, c.at, window);
        WindowSpan(c.at, window);
        WindowSpan(now, window);
      } else {
        CounterOutlivesItsWindow(init, key, now, window);
      }
    }
  }

  /** A limited call is refused exactly when its window has already seen `limit` limited calls. */
  lemma FixedWindowIsExact(calls: seq<Call>, c: Call, window: int)
    requires window > 0 && ClockRuns(calls + [c])
    ensures CheckFixed(CountersAfter(calls, window), c, window).1 <==>
            c.limit > 0 && Arrivals(calls, c.key, WindowOf(c.at, window), window) >= c.limit
  {
    Prefix(calls, c);
    CounterOutlivesItsWindow(calls, c.key, c.at, window);
  }

  /** Each aligned window lets through the first `limit` of its limited calls and no more. */
  lemma {:induction false} FixedWindowLetsThrough(calls: seq<Call>, key: string, limit: int, n: int, window: int)
    requires window > 0 && limit >= 1 && ClockRuns(calls)
    requires forall i :: 0 <= i < |calls| && calls[i].key == key ==> calls[i].limit == limit
    ensures CountWindow(AcceptedFixed(calls, key, window), n, window) ==
            if Arrivals(calls, key, n, window) <= limit then Arrivals(calls, key, n, window) else limit
  {
    if calls != [] {
      var c, init := calls[|calls| - 1], calls[..|calls| - 1];
      FixedWindowLetsThrough(init, key, limit, n, window);
      assert init + [c] == calls;
      FixedWindowIsExact(init, c, window);
    }
  }

  lemma {:induction false} IntervalMeetsTwoWindows(times: seq<real>, s: real, window: int)
    requires window > 0
    ensures CountIn(times, s, window) <=
            CountWindow(times, WindowOf(s, window), window) + CountWindow(times, WindowOf(s, window) + 1, window)
  {
    if times != [] {
      IntervalMeetsTwoWindows(times[..|times| - 1], s, window);
      var t := times[|times| - 1];
      if s <= t < s + window as real {
        var n := WindowOf(s, window);
        WindowSpan(s, window);
        WindowSpan(t, window);
        NextWindow(n, WindowOf(t, window), window);
      }
    }
  }

  lemma NextWindow(n: int, m: int, window: int)
    requires window > 0
    requires n * window < m * window + window && m * window < n * window + 2 * window
    ensures m == n || m == n + 1
  {
    Spaced(m, n, window);
    Spaced(n + 1, m, window);
  }

  lemma Spaced(a: int, b: int, window: int)
    requires window > 0
    ensures a < b ==> a * window + window <= b * window
  {
    if a < b {
      var k := b - a - 1;
      assert k * window >= 0;
      assert b * window == a * window + k * window + window;
    }
  }

  lemma {:induction false} AcceptedArrived(calls: seq<Call>, key: string, n: int, window: int)
    requires window > 0
    ensures CountWindow(AcceptedFixed(calls, key, window), n, window) <= Arrivals(calls, key, n, window)
  {
    hide CheckFixed, WindowOf;
    if calls != [] { AcceptedArrived(calls[..|calls| - 1], key, n, window); }
  }

  /** Whatever limits the calls of a key carry, an aligned window lets through no more than the largest. */
  lemma {:induction false} FixedWindowAtMost(calls: seq<Call>, key: string, limit: int, n: int, window: int)
    requires window > 0 && limit >= 1 && ClockRuns(calls)
    requires forall i :: 0 <= i < |calls| && calls[i].key == key ==> calls[i].limit <= limit
    ensures CountWindow(AcceptedFixed(calls, key, window), n, window) <= limit
  {
    hide CheckFixed, WindowOf;
    if calls != [] {
      var c, init := calls[|calls| - 1], calls[..|calls| - 1];
      FixedWindowAtMost(init, key, limit, n, window);
      AcceptedArrived(init, key, n, window);
      assert init + [c] == calls;
      FixedWindowIsExact(init, c, window);
    }
  }

  /** Any interval one window long lets through at most twice the limit. */
  lemma FixedWindowBound(calls: seq<Call>, key: string, limit: int, s: real, window: int)
    requires window > 0 && limit >= 1 && ClockRuns(calls)
    requires forall i :: 0 <= i < |calls| && calls[i].key == key ==> calls[i].limit <= limit
    ensures CountIn(AcceptedFixed(calls, key, window), s, window) <= 2 * limit
  {
    IntervalMeetsTwoWindows(AcceptedFixed(calls, key, window), s, window);
    FixedWindowAtMost(calls, key, limit, WindowOf(s, window), window);
    FixedWindowAtMost(calls, key, limit, WindowOf(s, window) + 1, window);
  }

  function Repeat(c: Call, n: nat): (r: seq<Call>)
    ensures |r| == n && forall i :: 0 <= i < n ==> r[i] == c
  {
    seq(n, _ => c)
  }

  /** Twice the limit is reached: `limit` calls just before a window boundary and `limit` at it. */
  lemma FixedWindowBoundIsTight(key: string, limit: int, window: int)
    requires window > 0 && limit >= 1
    ensures var calls := Repeat(Call(key, window as real - 0.5, limit), limit) + Repeat(Call(key, window as real, limit), limit);
            ClockRuns(calls) && CountIn(AcceptedFixed(calls, key, window), window as real - 0.5, window) == 2 * limit
  {
    var early, late := Call(key, window as real - 0.5, limit), Call(key, window as real, limit);
    var calls := Repeat(early, limit) + Repeat(late, limit);
    assert ClockRuns(calls);
    BurstsCounted(early, late, limit, limit, 0, window);
    BurstsCounted(early, late, limit, limit, 1, window);
    FixedWindowLetsThrough(calls, key, limit, 0, window);
    FixedWindowLetsThrough(calls, key, limit, 1, window);
    BurstTimes(calls, key, window);
    TwoWindowsInside(AcceptedFixed(calls, key, window), window);
  }

  lemma {:induction false} BurstsCounted(early: Call, late: Call, a: nat, b: nat, n: int, window: int)
    requires window > 0 && early.limit > 0 && late.limit > 0 && early.key == late.key
    requires early.at == window as real - 0.5 && late.at == window as real
    ensures Arrivals(Repeat(early, a) + Repeat(late, b), early.key, n, window) ==
            (if n == 0 then a else 0) + (if n == 1 then b else 0)
  {
    var calls := Repeat(early, a) + Repeat(late, b);
    EdgeWindows(window);
    if b > 0 {
      BurstsCounted(early, late, a, b - 1, n, window);
      assert calls[..|calls| - 1] == Repeat(early, a) + Repeat(late, b - 1);
    } else if a > 0 {
      BurstsCounted(early, late, a - 1, b, n, window);
      assert calls[..|calls| - 1] == Repeat(early, a - 1) + Repeat(late, b);
    }
  }

  lemma {:induction false} BurstTimes(calls: seq<Call>, key: string, window: int)
    requires window > 0
    requires forall i :: 0 <= i < |calls| ==> calls[i].at in {window as real - 0.5, window as real}
    ensures forall i :: 0 <= i < |AcceptedFixed(calls, key, window)| ==>
              AcceptedFixed(calls, key, window)[i] in {window as real - 0.5, window as real}
  {
    if calls != [] { BurstTimes(calls[..|calls| - 1], key, window); }
  }

  lemma EdgeWindows(window: int)
    requires window > 0
    ensures WindowOf(window as real - 0.5, window) == 0 && WindowOf(window as real, window) == 1
  {
    assert (window as real - 0.5).Floor == window - 1;
  }

  lemma {:induction false} TwoWindowsInside(times: seq<real>, window: int)
    requires window > 0
    requires forall i :: 0 <= i < |times| ==> times[i] in {window as real - 0.5, window as real}
    ensures CountIn(times, window as real - 0.5, window) == CountWindow(times, 0, window) + CountWindow(times, 1, window)
  {
    if times != [] {
      TwoWindowsInside(times[..|times| - 1], window);
      EdgeWindows(window);
    }
  }

  class RedisBackend {
    var counters: Counters

    constructor ()
      ensures counters == map[]
    {
      counters := map[];
    }

    method OverLimit(key: string, limit: int, window: int, now: real) returns (over: bool)
      requires window > 0
      modifies this
      ensures (counters, over) == Bump(old(counters), Call(key, now, limit), window)
    {
      var bucket := (key, WindowOf(now, window));
      var count := LiveCount(counters, bucket, now) + 1;
      counters := counters[bucket := Counter(count, now + window as real)];
      return count > limit;
    }

    method CheckRateLimit(key: string, limit: int, window: int, now: real) returns (refused: bool)
      requires window > 0
      modifies this
      ensures (counters, refused) == CheckFixed(old(counters), Call(key, now, limit), window)
    {
      if limit <= 0 {
        return false;
      }
      refused := OverLimit(key, limit, window, now);
    }
  }
}

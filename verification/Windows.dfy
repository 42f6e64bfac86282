/** Sliding windows over lists of instants, and Redis counters that expire. */
module Windows {
  import opened Wrappers

  /** The deque after dropping, from the left, what is at least a window old. */
  function Pruned(bucket: seq<real>, now: real, window: int): seq<real> {
    if bucket != [] && now - bucket[0] >= window as real then Pruned(bucket[1..], now, window) else bucket
  }

  /** The times younger than the window, by looking through all of them. */
  function Young(times: seq<real>, now: real, window: int): seq<real> {
    if times == [] then []
    else
      var t := times[|times| - 1];
      Young(times[..|times| - 1], now, window) + if now - t < window as real then [t] else []
  }

  ghost predicate Sorted(times: seq<real>) {
    forall i, j :: 0 <= i <= j < |times| ==> times[i] <= times[j]
  }

  lemma {:induction false} PrunedLater(b: seq<real>, t: real, now: real, window: int)
    requires t <= now
    ensures Pruned(Pruned(b, t, window), now, window) == Pruned(b, now, window)
  {
    if b != [] && t - b[0] >= window as real {
      PrunedLater(b[1..], t, now, window);
    }
  }

  lemma {:induction false} PrunedSnoc(a: seq<real>, x: real, now: real, window: int)
    ensures Pruned(a + [x], now, window) ==
            if Pruned(a, now, window) == [] then Pruned([x], now, window) else Pruned(a, now, window) + [x]
  {
    if a == [] {
      assert a + [x] == [x];
    } else {
      assert (a + [x])[1..] == a[1..] + [x];
      if now - a[0] >= window as real { PrunedSnoc(a[1..], x, now, window); }
    }
  }

  lemma {:induction false} PrunedIsYoung(times: seq<real>, now: real, window: int)
    requires Sorted(times)
    ensures Pruned(times, now, window) == Young(times, now, window)
  {
    if times != [] {
      var n := |times| - 1;
      PrunedIsYoung(times[..n], now, window);
      PrunedSnoc(times[..n], times[n], now, window);
      assert times == times[..n] + [times[n]];
      if now - times[n] >= window as real { AllOld(times[..n], now, window); }
    }
  }

  lemma {:induction false} AllOld(times: seq<real>, now: real, window: int)
    requires forall i :: 0 <= i < |times| ==> now - times[i] >= window as real
    ensures Young(times, now, window) == []
  {
    if times != [] { AllOld(times[..|times| - 1], now, window); }
  }

  lemma {:induction false} YoungShrinks(times: seq<real>, t: real, now: real, window: int)
    requires t <= now
    ensures |Young(times, now, window)| <= |Young(times, t, window)|
  {
    if times != [] { YoungShrinks(times[..|times| - 1], t, now, window); }
  }

  lemma {:induction false} YoungConcat(a: seq<real>, b: seq<real>, now: real, window: int)
    ensures Young(a + b, now, window) == Young(a, now, window) + Young(b, now, window)
  {
    if b == [] {
      assert a + b == a;
    } else {
      assert (a + b)[..|a + b| - 1] == a + b[..|b| - 1];
      YoungConcat(a, b[..|b| - 1], now, window);
    }
  }

  lemma {:induction false} YoungAtMost(times: seq<real>, now: real, window: int)
    ensures |Young(times, now, window)| <= |times|
  {
    if times != [] { YoungAtMost(times[..|times| - 1], now, window); }
  }

  /** All times from position k on being young, there are at least that many young ones. */
  lemma {:induction false} YoungSuffix(times: seq<real>, k: nat, now: real, window: int)
    requires k <= |times| && forall i :: k <= i < |times| ==> now - times[i] < window as real
    ensures |Young(times, now, window)| >= |times| - k
  {
    if k < |times| { YoungSuffix(times[..|times| - 1], k, now, window); }
  }

  /** How many of the times lie in the half-open interval from s, one window long. */
  function CountIn(times: seq<real>, s: real, window: int): nat {
    if times == [] then 0
    else
      var t := times[|times| - 1];
      CountIn(times[..|times| - 1], s, window) + if s <= t < s + window as real then 1 else 0
  }

  lemma {:induction false} InWindowIsYoung(times: seq<real>, s: real, now: real, window: int)
    requires s <= now < s + window as real
    ensures CountIn(times, s, window) <= |Young(times, now, window)|
  {
    if times != [] { InWindowIsYoung(times[..|times| - 1], s, now, window); }
  }

  /** A Redis integer with an expiry instant; at that instant the key is gone. */
  datatype Counter = Counter(count: nat, expires: real)

  function CountAt(c: Option<Counter>, now: real): nat {
    if c.Some? && now < c.value.expires then c.value.count else 0
  }

  function LiveCount<K(==)>(cs: map<K, Counter>, k: K, now: real): nat {
    CountAt(if k in cs then Some(cs[k]) else None, now)
  }
}

/** The fixed-window rate limiter. */
module RateLimit {
  // Each key has a window that opens with its first call and is replaced by the first call after it has passed; the
  // limiter lets the first `limit` calls of a window through.  Times are nanoseconds and do not decrease from call to
  // call.

  type Key = string

  datatype Bucket = Bucket(start: int, count: nat)

  type Buckets = map<Key, Bucket>

  datatype Call = Call(key: Key, now: int)

  datatype Limiter = Limiter(limit: int, window: int) {
    predicate Active() { limit > 0 && window > 0 }

    /** The bucket that a call is counted in. */
    function Counted(buckets: Buckets, c: Call): Bucket {
      if c.key !in buckets || c.now - buckets[c.key].start >= window then Bucket(c.now, 1)
      else buckets[c.key].(count := buckets[c.key].count + 1)
    }

    predicate Passes(buckets: Buckets, c: Call) { Active() ==> Counted(buckets, c).count <= limit }

    function Next(buckets: Buckets, c: Call): Buckets {
      if Active() then buckets[c.key := Counted(buckets, c)] else buckets
    }

    /** The buckets after the first n calls of a trace. */
    function After(calls: seq<Call>, n: nat): Buckets
      requires n <= |calls|
    {
      if n == 0 then map[] else Next(After(calls, n - 1), calls[n - 1])
    }

    predicate Passed(calls: seq<Call>, i: nat)
      requires i < |calls|
    {
      Passes(After(calls, i), calls[i])
    }

    /** How many of the first n calls have this key, came at time t or later, and passed. */
    function PassedSince(calls: seq<Call>, n: nat, key: Key, t: int): nat
      requires n <= |calls|
    {
      if n == 0 then 0
      else
        PassedSince(calls, n - 1, key, t)
        + if calls[n - 1].key == key && t <= calls[n - 1].now && Passed(calls, n - 1) then 1 else 0
    }

    /** How many of the first n calls have this key, came in the half-open interval from t to u, and passed. */
    function PassedWithin(calls: seq<Call>, n: nat, key: Key, t: int, u: int): nat
      requires n <= |calls|
    {
      if n == 0 then 0
      else
        PassedWithin(calls, n - 1, key, t, u)
        + if calls[n - 1].key == key && t <= calls[n - 1].now < u && Passed(calls, n - 1) then 1 else 0
    }
  }

  predicate Ordered(calls: seq<Call>) {
    forall i, j :: 0 <= i <= j < |calls| ==> calls[i].now <= calls[j].now
  }

  class RateLimiter {
    const limiter: Limiter
    var buckets: Buckets

    constructor (limit: int, window: int)
      ensures limiter == Limiter(limit, window) && buckets == map[]
    {
      limiter := Limiter(limit, window);
      buckets := map[];
    }

    method Allow(key: Key, now: int) returns (passed: bool)
      modifies this
      ensures passed == limiter.Passes(old(buckets), Call(key, now))
      ensures buckets == limiter.Next(old(buckets), Call(key, now))
    {
      if limiter.limit <= 0 || limiter.window <= 0 {
        return true;
      }
      var item := if key in buckets then buckets[key] else Bucket(now, 0);
      if key !in buckets || now - item.start >= limiter.window {
        item := Bucket(now, 0);
      }
      item := item.(count := item.count + 1);
      buckets := buckets[key := item];
      passed := item.count <= limiter.limit;
    }
  }

  lemma {:induction false} SinceSplits(l: Limiter, calls: seq<Call>, n: nat, key: Key, t: int, u: int)
    requires n <= |calls| && t <= u
    ensures l.PassedSince(calls, n, key, t) == l.PassedWithin(calls, n, key, t, u) + l.PassedSince(calls, n, key, u)
  {
    if n > 0 {
      SinceSplits(l, calls, n - 1, key, t, u);
    }
  }

  lemma {:induction false} NoneSinceAfterAll(l: Limiter, calls: seq<Call>, n: nat, key: Key, t: int)
    requires n <= |calls| && forall i :: 0 <= i < n ==> calls[i].now < t
    ensures l.PassedSince(calls, n, key, t) == 0
  {
    if n > 0 {
      NoneSinceAfterAll(l, calls, n - 1, key, t);
    }
  }

  function Min(a: int, b: int): int { if a < b then a else b }

  /** What the bucket of a key says about the calls that passed. */
  ghost predicate BucketMeans(l: Limiter, calls: seq<Call>, n: nat, key: Key)
    requires n <= |calls|
  {
    var buckets := l.After(calls, n);
    if key !in buckets then forall t :: l.PassedSince(calls, n, key, t) == 0
    else
      var b := buckets[key];
      && b.count >= 1
      && (exists i :: 0 <= i < n && calls[i].now == b.start)
      && l.PassedSince(calls, n, key, b.start) == Min(b.count, l.limit)
      && l.PassedSince(calls, n, key, b.start + l.window) == 0
      && (forall t :: StartIsCounted(l, calls, n, key, b, t))
  }

  /** Leaving out the call that opened the window leaves out one pass, in this window and in the one before. */
  ghost predicate StartIsCounted(l: Limiter, calls: seq<Call>, n: nat, key: Key, b: Bucket, t: int)
    requires n <= |calls|
  {
    && (t > b.start ==> l.PassedSince(calls, n, key, t) <= Min(b.count, l.limit) - 1)
    && (b.start - l.window < t <= b.start ==>
          l.PassedSince(calls, n, key, t) - l.PassedSince(calls, n, key, b.start) <= l.limit - 1)
  }

  /** The sliding bound, on all half-open intervals of window length. */
  ghost predicate SlidingBound(l: Limiter, calls: seq<Call>, n: nat, key: Key)
    requires n <= |calls|
  {
    forall t :: WindowOk(l, calls, n, key, t)
  }

  ghost predicate WindowOk(l: Limiter, calls: seq<Call>, n: nat, key: Key, t: int)
    requires n <= |calls|
  {
    l.PassedSince(calls, n, key, t) - l.PassedSince(calls, n, key, t + l.window) <= 2 * l.limit - 1
  }

  lemma StepKeepsMeaning(l: Limiter, calls: seq<Call>, n: nat, m: nat, key: Key)
    requires l.Active() && Ordered(calls) && m == n + 1 <= |calls|
    requires BucketMeans(l, calls, n, key)
    ensures BucketMeans(l, calls, m, key)
  {
    var c := calls[n];
    var before, after := l.After(calls, n), l.After(calls, m);
    if c.key == key {
      OwnStepKeepsMeaning(l, calls, n, m, key);
    } else if key in before {
      var i :| 0 <= i < n && calls[i].now == before[key].start;
      assert 0 <= i < m && calls[i].now == after[key].start;
      forall t ensures StartIsCounted(l, calls, m, key, after[key], t) {
        assert StartIsCounted(l, calls, n, key, before[key], t);
      }
    } else {
      assert forall t :: l.PassedSince(calls, n, key, t) == 0;
    }
  }

  lemma OwnStepKeepsMeaning(l: Limiter, calls: seq<Call>, n: nat, m: nat, key: Key)
    requires l.Active() && Ordered(calls) && m == n + 1 <= |calls| && calls[n].key == key
    requires BucketMeans(l, calls, n, key)
    ensures BucketMeans(l, calls, m, key)
  {
    var now := calls[n].now;
    var before := l.After(calls, n);
    var b := l.Counted(before, calls[n]);
    assert l.After(calls, m)[key] == b;
    var opens := key !in before || now - before[key].start >= l.window;
    if opens {
      if key in before {
        NoneSinceOldWindow(l, calls, n, key, now);
      }
      NoneSinceAfterAll(l, calls, m, key, now + l.window);
      assert calls[n].now == b.start;
    } else {
      var i :| 0 <= i < n && calls[i].now == before[key].start;
      assert 0 <= i < m && calls[i].now == b.start <= now;
    }
    forall t ensures StartIsCounted(l, calls, m, key, b, t) {
      if t > now {
        NoneSinceAfterAll(l, calls, n, key, t);
      }
      if key in before {
        assert StartIsCounted(l, calls, n, key, before[key], t);
      }
    }
  }

  lemma {:induction false} SinceIsMonotone(l: Limiter, calls: seq<Call>, n: nat, key: Key, t: int, u: int)
    requires n <= |calls| && t <= u
    ensures l.PassedSince(calls, n, key, u) <= l.PassedSince(calls, n, key, t)
  {
    SinceSplits(l, calls, n, key, t, u);
  }

  lemma NoneSinceOldWindow(l: Limiter, calls: seq<Call>, n: nat, key: Key, now: int)
    requires n <= |calls| && BucketMeans(l, calls, n, key) && key in l.After(calls, n)
    requires now - l.After(calls, n)[key].start >= l.window
    ensures l.PassedSince(calls, n, key, now) == 0
  {
    SinceIsMonotone(l, calls, n, key, l.After(calls, n)[key].start + l.window, now);
  }

  lemma StepKeepsBound(l: Limiter, calls: seq<Call>, n: nat, m: nat, key: Key)
    requires l.Active() && Ordered(calls) && m == n + 1 <= |calls|
    requires BucketMeans(l, calls, m, key) && SlidingBound(l, calls, n, key)
    ensures SlidingBound(l, calls, m, key)
  {
    var c := calls[n];
    forall t ensures WindowOk(l, calls, m, key, t) {
      assert WindowOk(l, calls, n, key, t);
      if c.key == key && t <= c.now < t + l.window {
        var b := l.After(calls, m)[key];
        var i :| 0 <= i < m && calls[i].now == b.start;
        assert b.start <= c.now;
        NoneSinceAfterAll(l, calls, m, key, t + l.window);
        assert StartIsCounted(l, calls, m, key, b, t);
        assert c.now < b.start + l.window;
      }
    }
  }

  lemma {:induction false} TraceKeepsBound(l: Limiter, calls: seq<Call>, n: nat, key: Key)
    requires l.Active() && Ordered(calls) && n <= |calls|
    ensures BucketMeans(l, calls, n, key) && SlidingBound(l, calls, n, key)
  {
    if n > 0 {
      TraceKeepsBound(l, calls, n - 1, key);
      StepKeepsMeaning(l, calls, n - 1, n, key);
      StepKeepsBound(l, calls, n - 1, n, key);
    }
  }

  /** In any half-open interval of one window, fewer than twice the limit of calls of a key pass. */
  lemma PassesAreBounded(l: Limiter, calls: seq<Call>, key: Key, t: int)
    requires l.Active() && Ordered(calls)
    ensures l.PassedWithin(calls, |calls|, key, t, t + l.window) <= 2 * l.limit - 1
  {
    TraceKeepsBound(l, calls, |calls|, key);
    assert WindowOk(l, calls, |calls|, key, t);
    SinceSplits(l, calls, |calls|, key, t, t + l.window);
  }

  /** A call is rejected only if at least limit calls of its key passed less than one window ago. */
  lemma RejectionIsDeserved(l: Limiter, calls: seq<Call>, i: nat)
    requires Ordered(calls) && i < |calls| && !l.Passed(calls, i)
    ensures l.Active()
    ensures l.PassedWithin(calls, i, calls[i].key, calls[i].now - l.window + 1, calls[i].now + 1) >= l.limit
  {
    var key, now := calls[i].key, calls[i].now;
    TraceKeepsBound(l, calls, i, key);
    var b := l.After(calls, i)[key];
    NoneSinceAfterAll(l, calls, i, key, now + 1);
    SinceIsMonotone(l, calls, i, key, now - l.window + 1, b.start);
    SinceSplits(l, calls, i, key, now - l.window + 1, now + 1);
  }

  /** How many of the first n calls have this key and came in the half-open interval from t to u. */
  function CalledWithin(calls: seq<Call>, n: nat, key: Key, t: int, u: int): nat
    requires n <= |calls|
  {
    if n == 0 then 0
    else
      CalledWithin(calls, n - 1, key, t, u)
      + if calls[n - 1].key == key && t <= calls[n - 1].now < u then 1 else 0
  }

  /**
   A limiter that is switched off remembers nothing over any trace, and as many calls pass as come, in any interval.
   */
  lemma {:induction false} InactivePassesAll(l: Limiter, calls: seq<Call>, n: nat, key: Key, t: int, u: int)
    requires n <= |calls| && !l.Active()
    ensures l.After(calls, n) == map[]
    ensures l.PassedWithin(calls, n, key, t, u) == CalledWithin(calls, n, key, t, u)
  {
    if n > 0 {
      InactivePassesAll(l, calls, n - 1, key, t, u);
    }
  }

  /** One call more than the limit, all at one time. */
  function Burst(l: Limiter, key: Key): (calls: seq<Call>)
    requires l.limit >= 1
    ensures |calls| == l.limit + 1
  {
    seq(l.limit + 1, i => Call(key, 0))
  }

  lemma {:induction false} BurstSoFar(l: Limiter, key: Key, n: nat)
    requires l.Active() && n <= l.limit + 1
    ensures l.After(Burst(l, key), n) == if n == 0 then map[] else map[key := Bucket(0, n)]
  {
    if n > 0 {
      BurstSoFar(l, key, n - 1);
    }
  }

  /** A limiter passes every call of every ordered trace if and only if it is switched off. */
  lemma TransparentIffInactive(l: Limiter, key: Key)
    ensures (forall calls: seq<Call>, i: nat :: Ordered(calls) && i < |calls| ==> l.Passed(calls, i)) <==> !l.Active()
  {
    if l.Active() {
      var calls := Burst(l, key);
      BurstSoFar(l, key, l.limit);
      assert Ordered(calls) && !l.Passed(calls, l.limit);
    }
  }

  // ---------------------------------------------------------------- the bound is attained

  /** One call at time 0, limit - 1 at the end of that window, limit at the start of the next. */
  function WorstCase(l: Limiter, key: Key): (calls: seq<Call>)
    requires l.limit >= 1
    ensures |calls| == 2 * l.limit
  {
    seq(2 * l.limit, i => Call(key, if i == 0 then 0 else if i < l.limit then l.window - 1 else l.window))
  }

  lemma {:induction false} WorstCaseSoFar(l: Limiter, key: Key, n: nat)
    requires l.limit >= 1 && l.window >= 2 && n <= 2 * l.limit
    ensures
      var calls := WorstCase(l, key);
      && l.After(calls, n) == (if n == 0 then map[]
                               else map[key := if n <= l.limit then Bucket(0, n) else Bucket(l.window, n - l.limit)])
      && l.PassedWithin(calls, n, key, 1, 1 + l.window) == if n == 0 then 0 else n - 1
  {
    if n > 0 {
      WorstCaseSoFar(l, key, n - 1);
      assert WorstCase(l, key)[n - 1].key == key;
    }
  }

  /** The bound cannot be lowered: for every limit and every window of two ticks or more some trace attains it. */
  lemma BoundIsTight(l: Limiter, key: Key) returns (calls: seq<Call>)
    requires l.limit >= 1 && l.window >= 2
    ensures Ordered(calls) && l.PassedWithin(calls, |calls|, key, 1, 1 + l.window) == 2 * l.limit - 1
  {
    calls := WorstCase(l, key);
    WorstCaseSoFar(l, key, 2 * l.limit);
  }
}

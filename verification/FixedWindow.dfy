/** The two fixed-window limiters: `checkRateLimit` of src/auth/rate-limit.service.ts and
    src/investments/investment-rate-limit.guard.ts. Times are in milliseconds. */
module FixedWindow {
  import opened Wrappers

  /** What is stored for a key: the requests of the current window and the end of that window. */
  datatype Record = Record(count: nat, resetAt: int)

  datatype Status = Status(limit: nat, remaining: int, reset: int, retryAfter: Option<int>, isExceeded: bool)

  /** The record after one more request: the same window if it is still open, else a new one. */
  function Counted(rec: Option<Record>, window: nat, now: int): Record {
    if rec.Some? && rec.value.resetAt > now then Record(rec.value.count + 1, rec.value.resetAt)
    else Record(1, now + window)
  }

  function WholeSeconds(ms: int): int { (ms + 999) / 1000 }

  function StatusOf(r: Record, limit: nat, now: int): Status {
    var over := r.count > limit;
    Status(limit, if over then 0 else limit - r.count, r.resetAt / 1000,
           if over then Some(WholeSeconds(r.resetAt - now)) else None, over)
  }

  function Lookup(cache: map<string, Record>, key: string): Option<Record> {
    if key in cache then Some(cache[key]) else None
  }

  // --- the service and the guard ---------------------------------------------------------------

  class RateLimitService {
    /** Every record is stored with a time to live that ends at its `resetAt`. */
    var cache: map<string, Record>

    constructor ()
      ensures cache == map[]
    {
      cache := map[];
    }

    /** `evicted` says whether the cache has dropped the record, which it may do once the time to live
        is over. The outcome does not depend on it. */
    method CheckRateLimit(key: string, limit: nat, window: nat, now: int, evicted: bool) returns (status: Status)
      requires evicted && key in cache ==> cache[key].resetAt <= now
      modifies this
      ensures cache == old(cache)[key := Counted(Lookup(old(cache), key), window, now)]
      ensures status == StatusOf(cache[key], limit, now)
    {
      var record := if evicted then None else Lookup(cache, key);
      var count, resetAt := 1, now + window;
      if record.Some? && record.value.resetAt > now {
        count := record.value.count + 1;
        resetAt := record.value.resetAt;
      }
      var isExceeded := count > limit;
      cache := cache[key := Record(count, resetAt)];
      var remaining := if limit - count > 0 then limit - count else 0;
      status := Status(limit, remaining, resetAt / 1000,
                       if isExceeded then Some(WholeSeconds(resetAt - now)) else None, isExceeded);
    }

    /** A cache that fails lets the request through. */
    method AllowWithoutCache(limit: nat, window: nat, now: int) returns (status: Status)
      ensures !status.isExceeded && status.retryAfter.None?
      ensures status.limit == limit && status.remaining == limit - 1
      ensures status.reset * 1000 <= now + window < (status.reset + 1) * 1000
    {
      status := Status(limit, limit - 1, (now + window) / 1000, None, false);
    }
  }

  const MAX_REQUESTS: nat := 30
  const WINDOW_MS: nat := 60_000

  /** The decision of the guard: a request that opens a window always passes. */
  predicate GuardAllows(rec: Option<Record>, max: nat, now: int) {
    rec.None? || rec.value.resetAt <= now || rec.value.count + 1 <= max
  }

  class InvestmentRateLimitGuard {
    var hits: map<string, Record>

    constructor ()
      ensures hits == map[]
    {
      hits := map[];
    }

    method CanActivate(ip: string, now: int) returns (allowed: bool)
      modifies this
      ensures var key := if ip == "" then "unknown" else ip;
              && allowed == GuardAllows(Lookup(old(hits), key), MAX_REQUESTS, now)
              && hits == old(hits)[key := Counted(Lookup(old(hits), key), WINDOW_MS, now)]
    {
      var key := if ip == "" then "unknown" else ip;
      if key !in hits || hits[key].resetAt <= now {
        hits := hits[key := Record(1, now + WINDOW_MS)];
        return true;
      }
      hits := hits[key := hits[key].(count := hits[key].count + 1)];
      return hits[key].count <= MAX_REQUESTS;
    }
  }

  // --- runs of one key -------------------------------------------------------------------------

  predicate InOrder(times: seq<int>) {
    forall i, j | 0 <= i <= j < |times| :: times[i] <= times[j]
  }

  /** The record after requests at the given times. */
  function After(times: seq<int>, window: nat): Option<Record> {
    if times == [] then None
    else Some(Counted(After(times[..|times| - 1], window), window, times[|times| - 1]))
  }

  /** Whether the last request of the run is let through. */
  predicate LastPasses(times: seq<int>, limit: nat, window: nat)
    requires times != []
  {
    !StatusOf(After(times, window).value, limit, times[|times| - 1]).isExceeded
  }

  /** The requests let through at a time in [a, b). */
  function Passed(times: seq<int>, limit: nat, window: nat, a: int, b: int): nat {
    if times == [] then 0
    else
      var last := times[|times| - 1];
      Passed(times[..|times| - 1], limit, window, a, b)
        + if a <= last < b && LastPasses(times, limit, window) then 1 else 0
  }

  /** The requests let through in the window that ends at the given time. */
  function PassedInWindow(times: seq<int>, limit: nat, window: nat, resetAt: int): nat {
    if times == [] then 0
    else
      PassedInWindow(times[..|times| - 1], limit, window, resetAt)
        + if After(times, window).value.resetAt == resetAt && LastPasses(times, limit, window) then 1 else 0
  }

  function Min(a: nat, b: nat): nat { if a <= b then a else b }

  lemma {:induction false} AfterLast(times: seq<int>, window: nat)
    requires InOrder(times) && times != [] && window > 0
    ensures var r := After(times, window).value;
            r.resetAt - window <= times[|times| - 1] < r.resetAt && r.count > 0
  {
    var rest := times[..|times| - 1];
    if rest != [] {
      assert InOrder(rest);
      AfterLast(rest, window);
      assert times[|rest| - 1] <= times[|times| - 1];
    }
  }

  /** A stored window lets through its first `limit` requests and no more; no request counts towards a
      window that ends later than the current one. */
  lemma {:induction false} WindowCount(times: seq<int>, limit: nat, window: nat, resetAt: int)
    requires InOrder(times) && window > 0
    ensures PassedInWindow(times, limit, window, resetAt) <= limit
    ensures times != [] && resetAt == After(times, window).value.resetAt ==>
      PassedInWindow(times, limit, window, resetAt) == Min(After(times, window).value.count, limit)
    ensures times == [] || resetAt > After(times, window).value.resetAt ==>
      PassedInWindow(times, limit, window, resetAt) == 0
  {
    if times != [] {
      var rest := times[..|times| - 1];
      assert InOrder(rest);
      WindowCount(rest, limit, window, resetAt);
      if rest != [] { AfterLast(rest, window); }
    }
  }

  lemma {:induction false} NonePassedLater(times: seq<int>, limit: nat, window: nat, a: int, b: int)
    requires InOrder(times) && (times != [] ==> times[|times| - 1] < a)
    ensures Passed(times, limit, window, a, b) == 0
  {
    if times != [] {
      var rest := times[..|times| - 1];
      assert InOrder(rest);
      if rest != [] { assert times[|rest| - 1] <= times[|times| - 1]; }
      NonePassedLater(rest, limit, window, a, b);
    }
  }

  /** Since the start of the current window its own requests passed, and since one window length before
      that at most `limit` others. The request that opens a window passes and is at its very start. */
  lemma {:induction false} PassedSince(times: seq<int>, limit: nat, window: nat, a: int, b: int)
    requires InOrder(times) && times != [] && window > 0 && limit > 0
    ensures var r := After(times, window).value;
            && (a >= r.resetAt - window ==> Passed(times, limit, window, a, b) <= Min(r.count, limit))
            && (a > r.resetAt - window ==> Passed(times, limit, window, a, b) < Min(r.count, limit))
            && (a > r.resetAt - 2 * window ==> Passed(times, limit, window, a, b) < limit + Min(r.count, limit))
  {
    var rest := times[..|times| - 1];
    assert InOrder(rest);
    if rest != [] {
      AfterLast(rest, window);
      PassedSince(rest, limit, window, a, b);
      if a >= After(rest, window).value.resetAt { NonePassedLater(rest, limit, window, a, b); }
    } else {
      NonePassedLater(rest, limit, window, a, b);
    }
  }

  /** Any half-open interval of one window length lets through less than twice the limit. */
  lemma {:induction false} LessThanTwiceTheLimit(times: seq<int>, limit: nat, window: nat, a: int)
    requires InOrder(times) && window > 0 && limit > 0
    ensures Passed(times, limit, window, a, a + window) < 2 * limit
  {
    if times != [] {
      if times[|times| - 1] < a + window {
        AfterLast(times, window);
        PassedSince(times, limit, window, a, a + window);
      } else {
        var rest := times[..|times| - 1];
        assert InOrder(rest);
        LessThanTwiceTheLimit(rest, limit, window, a);
      }
    }
  }

  lemma {:induction false} NothingPassesAtZero(times: seq<int>, window: nat, a: int, b: int)
    requires InOrder(times) && window > 0
    ensures Passed(times, 0, window, a, b) == 0
  {
    if times != [] {
      assert InOrder(times[..|times| - 1]);
      AfterLast(times, window);
      NothingPassesAtZero(times[..|times| - 1], window, a, b);
    }
  }

  function Burst(n: nat, t: int): (s: seq<int>)
    ensures |s| == n
  {
    seq(n, i => t)
  }

  /** A burst within the limit, inside the current window, passes whole. */
  lemma {:induction false} BurstPasses(times: seq<int>, n: nat, t: int, limit: nat, window: nat, a: int, b: int)
    requires times != [] && After(times, window).value.resetAt > t && a <= t < b
    requires After(times, window).value.count + n <= limit
    ensures var r, s := After(times, window).value, times + Burst(n, t);
            && After(s, window) == Some(Record(r.count + n, r.resetAt))
            && Passed(s, limit, window, a, b) == Passed(times, limit, window, a, b) + n
  {
    var s := times + Burst(n, t);
    if n == 0 {
      assert s == times;
    } else {
      assert s[..|s| - 1] == times + Burst(n - 1, t);
      BurstPasses(times, n - 1, t, limit, window, a, b);
    }
  }

  lemma {:induction false} BurstCounts(times: seq<int>, n: nat, t: int, window: nat)
    requires times != [] && After(times, window).value.resetAt > t
    ensures var r := After(times, window).value;
            After(times + Burst(n, t), window) == Some(Record(r.count + n, r.resetAt))
  {
    var s := times + Burst(n, t);
    if n == 0 {
      assert s == times;
    } else {
      assert s[..|s| - 1] == times + Burst(n - 1, t);
      BurstCounts(times, n - 1, t, window);
    }
  }

  /** The reported `remaining` is exactly the number of further requests that this window lets through,
      `reset` is its end in whole seconds, and `retryAfter` is given exactly to a request turned away. */
  lemma RemainingIsExact(times: seq<int>, n: nat, t: int, limit: nat, window: nat)
    requires times != [] && n > 0 && t < After(times, window).value.resetAt
    ensures var status := StatusOf(After(times, window).value, limit, times[|times| - 1]);
            && (LastPasses(times + Burst(n, t), limit, window) <==> n <= status.remaining)
            && status.reset * 1000 <= After(times, window).value.resetAt < (status.reset + 1) * 1000
            && 0 <= status.remaining && (status.isExceeded <==> !LastPasses(times, limit, window))
            && (status.retryAfter.Some? <==> status.isExceeded)
  {
    BurstCounts(times, n, t, window);
  }

  /** The bound is the best possible: one request opens a window, the rest of its limit comes at its very
      end, and the whole limit of the next window right after. */
  lemma TwiceTheLimitIsTight(limit: nat, window: nat)
    requires limit > 0 && window > 1
    ensures var times := [0] + Burst(limit - 1, window - 1) + [window] + Burst(limit - 1, window);
            Passed(times, limit, window, 1, 1 + window) == 2 * limit - 1
  {
    var first := [0];
    assert first[..0] == [];
    var full := first + Burst(limit - 1, window - 1);
    BurstPasses(first, limit - 1, window - 1, limit, window, 1, 1 + window);
    var next := full + [window];
    assert next[..|next| - 1] == full;
    BurstPasses(next, limit - 1, window, limit, window, 1, 1 + window);
  }

  /** A window of one millisecond is the exception: it never lets through more than the limit. */
  lemma {:induction false} OneMillisecondWindow(times: seq<int>, limit: nat, a: int)
    requires InOrder(times)
    ensures Passed(times, limit, 1, a, a + 1) <= limit
  {
    if limit == 0 {
      NothingPassesAtZero(times, 1, a, a + 1);
    } else if times != [] {
      var last, rest := times[|times| - 1], times[..|times| - 1];
      assert InOrder(rest);
      if last < a {
        NonePassedLater(times, limit, 1, a, a + 1);
      } else if last == a {
        AfterLast(times, 1);
        PassedSince(times, limit, 1, a, a + 1);
      } else {
        OneMillisecondWindow(rest, limit, a);
      }
    }
  }

  /** A request of one key. */
  datatype Request = Request(key: string, time: int)

  function CacheAfter(requests: seq<Request>, window: nat): map<string, Record> {
    if requests == [] then map[]
    else
      var cache, r := CacheAfter(requests[..|requests| - 1], window), requests[|requests| - 1];
      cache[r.key := Counted(Lookup(cache, r.key), window, r.time)]
  }

  function TimesOf(requests: seq<Request>, key: string): seq<int> {
    if requests == [] then []
    else
      var r := requests[|requests| - 1];
      TimesOf(requests[..|requests| - 1], key) + if r.key == key then [r.time] else []
  }

  /** However requests of different keys are mixed, a key's record depends on its own requests only. */
  lemma {:induction false} KeysAreIndependent(requests: seq<Request>, key: string, window: nat)
    ensures Lookup(CacheAfter(requests, window), key) == After(TimesOf(requests, key), window)
  {
    if requests != [] {
      var rest, r := requests[..|requests| - 1], requests[|requests| - 1];
      KeysAreIndependent(rest, key, window);
      if r.key == key {
        var earlier := TimesOf(rest, key);
        assert TimesOf(requests, key) == earlier + [r.time];
        assert (earlier + [r.time])[..|earlier|] == earlier;
      } else {
        assert TimesOf(requests, key) == TimesOf(rest, key);
      }
    }
  }

  /** `retryAfter` is the least whole number of seconds after which a caller that meets no other
      traffic is let through, provided the limit lets anything through at all. */
  lemma RetryAfterIsExact(r: Record, limit: nat, window: nat, now: int, seconds: nat)
    requires r.resetAt > now && StatusOf(r, limit, now).isExceeded
    ensures var later := now + 1000 * seconds;
            !StatusOf(Counted(Some(r), window, later), limit, later).isExceeded <==>
              limit >= 1 && seconds >= StatusOf(r, limit, now).retryAfter.value
  {
  }

  /** The guard keeps the service's record, and decides the last request of every trace as the service
      does exactly when the limit is at least 1 or the request does not open a window. */
  lemma GuardAgrees(times: seq<int>, max: nat, window: nat)
    requires times != []
    ensures
      (GuardAllows(After(times[..|times| - 1], window), max, times[|times| - 1]) <==> LastPasses(times, max, window))
      <==> (max >= 1 || After(times, window).value.count > 1)
  {
    CountIsPositive(times[..|times| - 1], window);
  }

  lemma CountIsPositive(times: seq<int>, window: nat)
    ensures times != [] ==> After(times, window).value.count > 0
  {
  }

  /** The requests the guard lets through at a time in [a, b). */
  function GuardPassed(times: seq<int>, max: nat, window: nat, a: int, b: int): nat {
    if times == [] then 0
    else
      var last, rest := times[|times| - 1], times[..|times| - 1];
      GuardPassed(rest, max, window, a, b)
        + if a <= last < b && GuardAllows(After(rest, window), max, last) then 1 else 0
  }

  lemma {:induction false} GuardPassesTheSame(times: seq<int>, max: nat, window: nat, a: int, b: int)
    requires max >= 1
    ensures GuardPassed(times, max, window, a, b) == Passed(times, max, window, a, b)
  {
    if times != [] {
      GuardPassesTheSame(times[..|times| - 1], max, window, a, b);
      GuardAgrees(times, max, window);
    }
  }

  /** So the guard lets through at most 59 requests of one address in any minute. */
  lemma GuardBound(times: seq<int>, a: int)
    requires InOrder(times)
    ensures GuardPassed(times, MAX_REQUESTS, WINDOW_MS, a, a + WINDOW_MS) < 60
  {
    LessThanTwiceTheLimit(times, MAX_REQUESTS, WINDOW_MS, a);
    GuardPassesTheSame(times, MAX_REQUESTS, WINDOW_MS, a, a + WINDOW_MS);
  }
}

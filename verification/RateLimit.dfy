/** The fixed-window request counter, and what it guarantees over whole runs. */
module RateLimit {
  import opened Basics
  import opened Arith

  datatype Bucket = Bucket(count: int, resetAt: int)

  datatype CheckResult = CheckResult(ok: bool, count: int, limit: int, resetAt: int, retryAfter: int)

  const EMPTY_BUCKET := Bucket(0, 0)

  /** `Math.ceil(a / b)`. */
  function CeilDiv(a: int, b: int): int
    requires b > 0
  {
    -((-a) / b)
  }

  function Next(b: Bucket, now: int, windowMs: int): Bucket {
    if now >= b.resetAt then Bucket(1, now + windowMs) else Bucket(b.count + 1, b.resetAt)
  }

  function Check(b: Bucket, now: int, limit: int, windowMs: int): CheckResult {
    var n := Next(b, now, windowMs);
    var ok := n.count <= limit;
    CheckResult(ok, n.count, limit, n.resetAt, if ok then 0 else Max(0, CeilDiv(n.resetAt - now, 1000)))
  }

  class RateLimitCounter {
    /** The stored bucket, absent before the first request. */
    var bucket: Option<Bucket>

    ghost function Stored(): Bucket
      reads this
    {
      if bucket.Some? then bucket.value else EMPTY_BUCKET
    }

    constructor ()
      ensures Stored() == EMPTY_BUCKET
    {
      bucket := None;
    }

    method Fetch(now: int, limit: int, windowMs: int) returns (result: CheckResult)
      modifies this
      ensures Stored() == Next(old(Stored()), now, windowMs)
      ensures result == Check(old(Stored()), now, limit, windowMs)
    {
      var stored := if bucket.Some? then bucket.value else Bucket(0, 0);
      var count, resetAt;
      if now >= stored.resetAt {
        count := 1;
        resetAt := now + windowMs;
      } else {
        count := stored.count + 1;
        resetAt := stored.resetAt;
      }
      bucket := Some(Bucket(count, resetAt));
      var ok := count <= limit;
      var retryAfter := if ok then 0 else Max(0, CeilDiv(resetAt - now, 1000));
      result := CheckResult(ok, count, limit, resetAt, retryAfter);
    }
  }

  // ---- runs -----------------------------------------------------------------------

  ghost predicate NonDecreasing(times: seq<int>) {
    forall i, j :: 0 <= i < j < |times| ==> times[i] <= times[j]
  }

  /** Requests admitted in a run at times in [lo, hi). */
  function Admitted(b: Bucket, times: seq<int>, limit: int, windowMs: int, lo: int, hi: int): nat
    decreases |times|
  {
    if times == [] then 0
    else
      (if Check(b, times[0], limit, windowMs).ok && lo <= times[0] < hi then 1 else 0)
      + Admitted(Next(b, times[0], windowMs), times[1..], limit, windowMs, lo, hi)
  }

  /** How many windows can start in [lo, hi), each ending before the next starts. */
  function Windows(lo: int, hi: int, windowMs: int): nat
    requires windowMs > 0
    decreases hi - lo
  {
    if lo >= hi then 0 else 1 + Windows(lo + windowMs, hi, windowMs)
  }

  lemma {:induction false} WindowsMonotone(a: int, b: int, hi: int, windowMs: int)
    requires windowMs > 0 && a <= b
    ensures Windows(a, hi, windowMs) >= Windows(b, hi, windowMs)
    decreases hi - a
  {
    if a < hi && b < hi {
      WindowsMonotone(a + windowMs, b + windowMs, hi, windowMs);
    }
  }

  lemma {:induction false} WindowsAreCeil(lo: int, hi: int, windowMs: int)
    requires windowMs > 0 && lo <= hi
    ensures Windows(lo, hi, windowMs) == CeilDiv(hi - lo, windowMs)
    decreases hi - lo
  {
    if lo == hi {
      assert (-0) / windowMs == 0;
    } else if hi - lo <= windowMs {
      assert Windows(lo, hi, windowMs) == 1;
      DivModUnique(-(hi - lo), windowMs, -1, windowMs - (hi - lo));
    } else {
      WindowsAreCeil(lo + windowMs, hi, windowMs);
      var x := -(hi - lo - windowMs);
      DivMod(x, windowMs);
      Distribute(x / windowMs, -1, windowMs);
      DivModUnique(-(hi - lo), windowMs, x / windowMs - 1, x % windowMs);
    }
  }

  /** What is left of the current window, and full windows after it. */
  function Allowance(b: Bucket, limit: int, windowMs: int, lo: int, hi: int): int
    requires windowMs > 0
  {
    Max(0, Max(0, limit) - b.count) + Times(Max(0, limit), Windows(Max(b.resetAt, lo), hi, windowMs))
  }

  lemma {:induction false} AdmittedAfter(b: Bucket, times: seq<int>, limit: int, windowMs: int, lo: int, hi: int)
    requires NonDecreasing(times) && (times != [] ==> times[0] >= hi)
    ensures Admitted(b, times, limit, windowMs, lo, hi) == 0
    decreases |times|
  {
    if times != [] {
      AdmittedAfter(Next(b, times[0], windowMs), times[1..], limit, windowMs, lo, hi);
    }
  }

  lemma AllowanceStep(b: Bucket, t: int, limit: int, windowMs: int, lo: int, hi: int)
    requires windowMs > 0 && lo <= t < hi
    ensures Allowance(b, limit, windowMs, lo, hi)
         >= (if Check(b, t, limit, windowMs).ok then 1 else 0)
            + Allowance(Next(b, t, windowMs), limit, windowMs, lo, hi)
  {
    hide Windows, CeilDiv, Times;
    if t >= b.resetAt {
      WindowSpent(Max(0, limit), Max(b.resetAt, lo), t, hi, windowMs);
    }
  }

  /** Opening a window at t uses up one of the windows that could start from m on. */
  lemma WindowSpent(l: nat, m: int, t: int, hi: int, windowMs: int)
    requires windowMs > 0 && m <= t < hi
    ensures Times(l, Windows(m, hi, windowMs)) >= l + Times(l, Windows(t + windowMs, hi, windowMs))
  {
    WindowsMonotone(m, t, hi, windowMs);
    var after := Windows(t + windowMs, hi, windowMs);
    assert Windows(t, hi, windowMs) == 1 + after;
    MulMono(1 + after, Windows(m, hi, windowMs), l);
    Distribute(1, after, l);
  }

  lemma {:induction false} AdmittedWithin(b: Bucket, times: seq<int>, limit: int, windowMs: int, lo: int, hi: int)
    requires windowMs > 0 && NonDecreasing(times) && (times != [] ==> lo <= times[0])
    ensures Admitted(b, times, limit, windowMs, lo, hi) <= Allowance(b, limit, windowMs, lo, hi)
    decreases |times|
  {
    if times != [] && times[0] < hi {
      AdmittedWithin(Next(b, times[0], windowMs), times[1..], limit, windowMs, lo, hi);
      AllowanceStep(b, times[0], limit, windowMs, lo, hi);
    } else {
      AdmittedAfter(b, times, limit, windowMs, lo, hi);
      MulMono(0, Windows(Max(b.resetAt, lo), hi, windowMs), Max(0, limit));
    }
  }

  /** The most requests an interval of this length can admit. In the second case the window
      under way at its start, opened by a request before, ends a millisecond later. */
  function Most(limit: int, windowMs: int, length: nat): nat
    requires windowMs > 0
    ensures length == 0 || limit <= 0 ==> Most(limit, windowMs, length) == 0
  {
    if length == 0 || limit <= 0 then 0
    else
      CeilNonNeg(length, windowMs);
      CeilNonNeg(length - 1, windowMs);
      Max(Times(limit, CeilDiv(length, windowMs)), Times(limit, CeilDiv(length - 1, windowMs)) + limit - 1)
  }

  lemma CeilNonNeg(a: nat, b: int)
    requires b > 0
    ensures CeilDiv(a, b) >= 0
  {
    WindowsAreCeil(0, a, b);
  }

  /** When the window under way has ended by lo. */
  lemma AllowanceNew(b: Bucket, limit: int, windowMs: int, lo: int, hi: int)
    requires windowMs > 0 && lo < hi && b.resetAt <= lo && b.count >= limit && limit > 0
    ensures Allowance(b, limit, windowMs, lo, hi) <= Most(limit, windowMs, hi - lo)
  {
    WindowsAreCeil(lo, hi, windowMs);
  }

  /** When it has not. */
  lemma AllowanceOld(b: Bucket, limit: int, windowMs: int, lo: int, hi: int)
    requires windowMs > 0 && lo < hi && b.resetAt > lo && b.count >= 1 && limit > 0
    ensures Allowance(b, limit, windowMs, lo, hi) <= Most(limit, windowMs, hi - lo)
  {
    hide Windows, CeilDiv;
    var m, w := Windows(b.resetAt, hi, windowMs), Windows(lo + 1, hi, windowMs);
    WindowsMonotone(lo + 1, b.resetAt, hi, windowMs);
    WindowsAreCeil(lo + 1, hi, windowMs);
    MulMono(m, w, limit);
  }

  /** What happened in a window that has ended does not matter. */
  lemma EndedWindow(b: Bucket, count: int, times: seq<int>, limit: int, windowMs: int, lo: int, hi: int)
    requires times == [] || times[0] >= b.resetAt
    ensures Admitted(b, times, limit, windowMs, lo, hi) == Admitted(b.(count := count), times, limit, windowMs, lo, hi)
  {}

  /** The next request opens a window, or some request of this window has been counted. */
  ghost predicate Started(b: Bucket, times: seq<int>) {
    b.count >= 0 && (b.count >= 1 || (times != [] ==> times[0] >= b.resetAt))
  }

  /** Any half-open interval admits at most `Most` requests, in any run with a clock that
      does not go back. */
  lemma {:induction false} SlidingBound(b: Bucket, times: seq<int>, limit: int, windowMs: int, lo: int, hi: int)
    requires windowMs > 0 && NonDecreasing(times) && lo <= hi && Started(b, times)
    ensures Admitted(b, times, limit, windowMs, lo, hi) <= Most(limit, windowMs, hi - lo)
    decreases |times|
  {
    hide Allowance, CeilDiv, Most;
    if limit <= 0 || lo == hi {
      NoneAdmitted(b, times, limit, windowMs, lo, hi);
    } else if times != [] && times[0] < lo {
      SlidingBound(Next(b, times[0], windowMs), times[1..], limit, windowMs, lo, hi);
    } else if b.resetAt <= lo {
      var spent := b.(count := Max(limit, b.count));
      EndedWindow(b, spent.count, times, limit, windowMs, lo, hi);
      AdmittedWithin(spent, times, limit, windowMs, lo, hi);
      AllowanceNew(spent, limit, windowMs, lo, hi);
    } else {
      var counted := b.(count := Max(1, b.count));
      if b.count < 1 {
        EndedWindow(b, 1, times, limit, windowMs, lo, hi);
      }
      AdmittedWithin(counted, times, limit, windowMs, lo, hi);
      AllowanceOld(counted, limit, windowMs, lo, hi);
    }
  }

  lemma {:induction false} NoneAdmitted(b: Bucket, times: seq<int>, limit: int, windowMs: int, lo: int, hi: int)
    requires (limit <= 0 || lo >= hi) && b.count >= 0
    ensures Admitted(b, times, limit, windowMs, lo, hi) == 0
    decreases |times|
  {
    if times != [] {
      NoneAdmitted(Next(b, times[0], windowMs), times[1..], limit, windowMs, lo, hi);
    }
  }

  /** So fewer than twice the limit in any interval one window long. */
  lemma OneWindowLength(times: seq<int>, limit: nat, windowMs: int, lo: int)
    requires windowMs > 0 && NonDecreasing(times) && (times != [] ==> times[0] >= 0)
    ensures Admitted(EMPTY_BUCKET, times, limit, windowMs, lo, lo + windowMs) <= Max(0, 2 * limit - 1)
  {
    SlidingBound(EMPTY_BUCKET, times, limit, windowMs, lo, lo + windowMs);
    OneWindowMost(limit, windowMs);
  }

  lemma OneWindowMost(limit: nat, windowMs: int)
    requires windowMs > 0
    ensures Most(limit, windowMs, windowMs) == if windowMs == 1 then limit else Max(0, 2 * limit - 1)
  {
    DivModUnique(-windowMs, windowMs, -1, 0);
    DivModUnique(-(windowMs - 1), windowMs, if windowMs == 1 then 0 else -1, if windowMs == 1 then 0 else 1);
  }

  // ---- the bound is reached ------------------------------------------------------------

  function Repeated(t: int, n: nat): (times: seq<int>)
    ensures |times| == n
  {
    seq(n, _ => t)
  }

  /** A full burst at t and at every window length after it, before hi. */
  function Bursts(t: int, hi: int, limit: nat, windowMs: int): seq<int>
    requires windowMs > 0
    decreases hi - t
  {
    if t >= hi then [] else Repeated(t, limit) + Bursts(t + windowMs, hi, limit, windowMs)
  }

  /** One request opens a window, the rest of its limit comes in its last millisecond, and
      from the next on every window is spent as it opens. */
  function Busiest(limit: nat, windowMs: int, length: nat): seq<int>
    requires limit >= 1 && windowMs > 0
  {
    Repeated(0, 1) + (Repeated(windowMs - 1, limit - 1) + Bursts(windowMs, windowMs - 1 + length, limit, windowMs))
  }

  /** Requests at one time inside a window, while the limit lasts. */
  lemma {:induction false} BurstInside(b: Bucket, t: int, n: nat, rest: seq<int>, limit: int, windowMs: int, lo: int,
                                       hi: int)
    requires t < b.resetAt && b.count + n <= limit
    ensures Admitted(b, Repeated(t, n) + rest, limit, windowMs, lo, hi)
         == (if lo <= t < hi then n else 0) + Admitted(b.(count := b.count + n), rest, limit, windowMs, lo, hi)
    decreases n
  {
    if n == 0 {
      assert Repeated(t, n) + rest == rest;
    } else {
      var times := Repeated(t, n) + rest;
      assert times[1..] == Repeated(t, n - 1) + rest;
      BurstInside(b.(count := b.count + 1), t, n - 1, rest, limit, windowMs, lo, hi);
    }
  }

  /** The same when the first of them opens the window. */
  lemma BurstOpens(b: Bucket, t: int, n: nat, rest: seq<int>, limit: int, windowMs: int, lo: int, hi: int)
    requires windowMs > 0 && b.resetAt <= t && 1 <= n <= limit
    ensures Admitted(b, Repeated(t, n) + rest, limit, windowMs, lo, hi)
         == (if lo <= t < hi then n else 0) + Admitted(Bucket(n, t + windowMs), rest, limit, windowMs, lo, hi)
  {
    var times := Repeated(t, n) + rest;
    assert times[0] == t && times[1..] == Repeated(t, n - 1) + rest;
    BurstInside(Bucket(1, t + windowMs), t, n - 1, rest, limit, windowMs, lo, hi);
  }

  lemma {:induction false} BurstsAdmitted(b: Bucket, t: int, limit: nat, windowMs: int, lo: int, hi: int)
    requires windowMs > 0 && limit >= 1 && b.resetAt <= t && lo <= t
    ensures Admitted(b, Bursts(t, hi, limit, windowMs), limit, windowMs, lo, hi)
         == Times(limit, Windows(t, hi, windowMs))
    decreases hi - t
  {
    if t < hi {
      BurstOpens(b, t, limit, Bursts(t + windowMs, hi, limit, windowMs), limit, windowMs, lo, hi);
      BurstsAdmitted(Bucket(limit, t + windowMs), t + windowMs, limit, windowMs, lo, hi);
      Distribute(1, Windows(t + windowMs, hi, windowMs), limit);
    }
  }

  ghost predicate NotBefore(times: seq<int>, t: int) {
    NonDecreasing(times) && forall i :: 0 <= i < |times| ==> t <= times[i]
  }

  lemma RepeatedFirst(t: int, n: nat, rest: seq<int>, from: int)
    requires t <= from && NotBefore(rest, from)
    ensures NotBefore(Repeated(t, n) + rest, t)
  {}

  lemma {:induction false} BurstsOrdered(t: int, hi: int, limit: nat, windowMs: int)
    requires windowMs > 0
    ensures NotBefore(Bursts(t, hi, limit, windowMs), t)
    decreases hi - t
  {
    hide NotBefore;
    if t < hi {
      BurstsOrdered(t + windowMs, hi, limit, windowMs);
      RepeatedFirst(t, limit, Bursts(t + windowMs, hi, limit, windowMs), t + windowMs);
    } else {
      assert NotBefore([], t) by { NothingBefore(t); }
    }
  }

  lemma NothingBefore(t: int)
    ensures NotBefore([], t)
  {}

  /** The run, and the start of the interval, that reach the bound: a full burst as each
      window opens in it, or before that the rest of a window's limit in its last
      millisecond, whichever is more. */
  function MostRun(limit: nat, windowMs: int, length: nat): (seq<int>, int)
    requires limit >= 1 && windowMs > 0 && length >= 1
  {
    CeilNonNeg(length, windowMs);
    if Times(limit, CeilDiv(length, windowMs)) >= Most(limit, windowMs, length)
    then (Bursts(0, length, limit, windowMs), 0)
    else (Busiest(limit, windowMs, length), windowMs - 1)
  }

  /** For every limit, window and interval length some run reaches the bound, so it is
      exact. */
  lemma BoundReached(limit: nat, windowMs: int, length: nat)
    requires limit >= 1 && windowMs > 0 && length >= 1
    ensures var (times, lo) := MostRun(limit, windowMs, length);
            NonDecreasing(times) && Started(EMPTY_BUCKET, times)
            && Admitted(EMPTY_BUCKET, times, limit, windowMs, lo, lo + length) == Most(limit, windowMs, length)
  {
    hide Windows, CeilDiv, Bursts, Admitted;
    CeilNonNeg(length, windowMs);
    if Times(limit, CeilDiv(length, windowMs)) >= Most(limit, windowMs, length) {
      BurstsOrdered(0, length, limit, windowMs);
      BurstsAdmitted(EMPTY_BUCKET, 0, limit, windowMs, 0, length);
      WindowsAreCeil(0, length, windowMs);
    } else {
      LastMillisecond(limit, windowMs, length);
      BusiestAdmitted(limit, windowMs, length);
    }
  }

  /** The second case needs a window of two milliseconds. */
  lemma LastMillisecond(limit: nat, windowMs: int, length: nat)
    requires limit >= 1 && windowMs > 0 && length >= 1
    ensures CeilDiv(length, windowMs) >= 0
    ensures windowMs == 1 ==> Times(limit, CeilDiv(length, windowMs)) >= Most(limit, windowMs, length)
  {
    CeilNonNeg(length, windowMs);
    if windowMs == 1 {
      var n: int := length;
      DivModUnique(-n, 1, -n, 0);
      DivModUnique(1 - n, 1, 1 - n, 0);
      Distribute(length - 1, 1, limit);
    }
  }

  lemma BusiestAdmitted(limit: nat, windowMs: int, length: nat)
    requires limit >= 1 && windowMs >= 2 && length >= 1
    ensures var times, lo := Busiest(limit, windowMs, length), windowMs - 1;
            NonDecreasing(times) && Started(EMPTY_BUCKET, times)
            && CeilDiv(length - 1, windowMs) >= 0
            && Admitted(EMPTY_BUCKET, times, limit, windowMs, lo, lo + length)
               == Times(limit, CeilDiv(length - 1, windowMs)) + limit - 1
  {
    hide Windows, CeilDiv, Bursts, Admitted;
    var lo, hi := windowMs - 1, windowMs - 1 + length;
    var bursts := Bursts(windowMs, hi, limit, windowMs);
    CeilNonNeg(length - 1, windowMs);
    BurstsOrdered(windowMs, hi, limit, windowMs);
    RepeatedFirst(lo, limit - 1, bursts, windowMs);
    RepeatedFirst(0, 1, Repeated(lo, limit - 1) + bursts, lo);
    BurstOpens(EMPTY_BUCKET, 0, 1, Repeated(lo, limit - 1) + bursts, limit, windowMs, lo, hi);
    BurstInside(Bucket(1, windowMs), lo, limit - 1, bursts, limit, windowMs, lo, hi);
    BurstsAdmitted(Bucket(limit, windowMs), windowMs, limit, windowMs, lo, hi);
    WindowsAreCeil(windowMs, hi, windowMs);
  }

  ghost predicate Before(times: seq<int>, t: int) {
    forall i :: 0 <= i < |times| ==> times[i] < t
  }

  lemma {:induction false} RestOfWindow(b: Bucket, times: seq<int>, limit: int, windowMs: int, lo: int, hi: int)
    requires Before(times, b.resetAt) && forall i :: 0 <= i < |times| ==> lo <= times[i] < hi
    ensures Admitted(b, times, limit, windowMs, lo, hi) == Min(|times|, Max(0, limit - b.count))
    decreases |times|
  {
    if times != [] {
      RestOfWindow(Next(b, times[0], windowMs), times[1..], limit, windowMs, lo, hi);
    }
  }

  /** A window that receives n requests, the one that opens it and any before its end,
      admits exactly min(n, limit) of them. */
  lemma WindowAdmitsExactly(b: Bucket, times: seq<int>, limit: nat, windowMs: int, lo: int, hi: int)
    requires windowMs > 0 && times != [] && times[0] >= b.resetAt && Before(times, times[0] + windowMs)
    requires forall i :: 0 <= i < |times| ==> lo <= times[i] < hi
    ensures Admitted(b, times, limit, windowMs, lo, hi) == Min(|times|, limit)
  {
    RestOfWindow(Next(b, times[0], windowMs), times[1..], limit, windowMs, lo, hi);
  }

  /** The answers to a run of requests. */
  function Answers(b: Bucket, times: seq<int>, limit: int, windowMs: int): (r: seq<CheckResult>)
    ensures |r| == |times|
    decreases |times|
  {
    if times == [] then []
    else [Check(b, times[0], limit, windowMs)] + Answers(Next(b, times[0], windowMs), times[1..], limit, windowMs)
  }

  lemma {:induction false} AnswersInside(b: Bucket, times: seq<int>, limit: int, windowMs: int)
    requires Before(times, b.resetAt)
    ensures var r := Answers(b, times, limit, windowMs);
            forall i :: 0 <= i < |times| ==>
              r[i].count == b.count + i + 1 && r[i].resetAt == b.resetAt && r[i].limit == limit
              && r[i].ok == (b.count + i + 1 <= limit) && RetryExact(r[i], times[i])
    decreases |times|
  {
    if times != [] {
      AnswersInside(Next(b, times[0], windowMs), times[1..], limit, windowMs);
      OneRetry(b, times[0], limit, windowMs);
    }
  }

  /** No wait when admitted; otherwise the least whole number of seconds to the reset. */
  ghost predicate RetryExact(r: CheckResult, now: int) {
    if r.ok then r.retryAfter == 0
    else 1000 * (r.retryAfter - 1) < r.resetAt - now <= 1000 * r.retryAfter
  }

  lemma OneRetry(b: Bucket, now: int, limit: int, windowMs: int)
    requires now < b.resetAt || windowMs > 0
    ensures RetryExact(Check(b, now, limit, windowMs), now)
  {
    var d := Next(b, now, windowMs).resetAt - now;
    assert d > 0;
    DivMod(-d, 1000);
  }

  /** What the requests of one window are answered: they are counted from 1, under the limit
      given, until windowMs after the first; each is admitted while the count is within the
      limit, and told to wait for the reset when it is not. */
  lemma AnswersExact(b: Bucket, times: seq<int>, limit: int, windowMs: int)
    requires windowMs > 0 && times != [] && times[0] >= b.resetAt && Before(times, times[0] + windowMs)
    ensures var r := Answers(b, times, limit, windowMs);
            forall i :: 0 <= i < |times| ==>
              r[i].count == i + 1 && r[i].resetAt == times[0] + windowMs && r[i].limit == limit
              && r[i].ok == (i + 1 <= limit) && RetryExact(r[i], times[i])
  {
    AnswersInside(Next(b, times[0], windowMs), times[1..], limit, windowMs);
    OneRetry(b, times[0], limit, windowMs);
  }

  /** Waiting `retryAfter` seconds is enough, whatever else was counted meanwhile: a
      request from then on belongs to a later window. And one second less is not. */
  lemma RetryAfterSuffices(b: Bucket, now: int, limit: int, windowMs: int, meanwhile: Bucket, later: int)
    requires windowMs > 0 && !Check(b, now, limit, windowMs).ok
    ensures var r := Check(b, now, limit, windowMs);
            r.retryAfter > 0 && 1000 * (r.retryAfter - 1) < r.resetAt - now
    ensures var r := Check(b, now, limit, windowMs);
            later >= now + 1000 * r.retryAfter ==> Check(meanwhile, later, limit, windowMs).resetAt > r.resetAt
  {
    var d := Next(b, now, windowMs).resetAt - now;
    assert d > 0;
    DivMod(-d, 1000);
  }
}

/**
 The fixed-window rate limiter of one key. Times are in milliseconds; a window is renewed
 by a request that comes a minute or more after its start. The clock may jump.
 */
module RateLimiter {

  datatype Tracker = Tracker(windowStart: int, requestCount: int)

  const MINUTE := 60000

  /** A tracker that was never used. */
  const UNUSED := Tracker(0, 0)

  function EffectiveLimit(configured: int): (limit: int)
    ensures limit > 0
  {
    if configured <= 0 then 1000 else configured
  }

  predicate Renews(t: Tracker, now: int) {
    now - t.windowStart >= MINUTE
  }

  function Renewed(t: Tracker, now: int): Tracker {
    if Renews(t, now) then Tracker(now, 0) else t
  }

  predicate Admits(t: Tracker, limit: int, now: int) {
    Renewed(t, now).requestCount < limit
  }

  function Next(t: Tracker, limit: int, now: int): Tracker {
    var r := Renewed(t, now);
    if r.requestCount < limit then r.(requestCount := r.requestCount + 1) else r
  }

  // ---------- A run of requests ----------

  function After(t: Tracker, limit: int, times: seq<int>): Tracker
    decreases times
  {
    if times == [] then t else After(Next(t, limit, times[0]), limit, times[1..])
  }

  function Admitted(t: Tracker, limit: int, times: seq<int>): nat
    decreases times
  {
    if times == [] then 0
    else (if Admits(t, limit, times[0]) then 1 else 0) + Admitted(Next(t, limit, times[0]), limit, times[1..])
  }

  /** The starts of the windows opened by the requests, in order. */
  function Windows(t: Tracker, limit: int, times: seq<int>): seq<int>
    decreases times
  {
    if times == [] then []
    else (if Renews(t, times[0]) then [times[0]] else []) + Windows(Next(t, limit, times[0]), limit, times[1..])
  }

  predicate InWindow(t: Tracker, times: seq<int>) {
    forall i | 0 <= i < |times| :: !Renews(t, times[i])
  }

  /** Within a window a key without a limit of its own gets 1000 requests, any other its own number, as long as they come. */
  lemma WindowIsExact(configured: int, t: Tracker, times: seq<int>)
    requires 0 <= t.requestCount <= EffectiveLimit(configured) && InWindow(t, times)
    ensures var room := (if configured > 0 then configured else 1000) - t.requestCount;
            Admitted(t, EffectiveLimit(configured), times) == if |times| < room then |times| else room
  {
    hide Admitted, InWindow;
    WindowAdmitsAtMost(t, EffectiveLimit(configured), times);
    AdmittedIsShort(t, EffectiveLimit(configured), times);
  }

  lemma {:induction false} AdmittedIsShort(t: Tracker, limit: int, times: seq<int>)
    ensures Admitted(t, limit, times) <= |times|
    decreases times
  {
    if times != [] {
      AdmittedIsShort(Next(t, limit, times[0]), limit, times[1..]);
    }
  }

  /** Within a window every admission is counted, and at most the limit is admitted. */
  lemma {:induction false} WindowAdmitsAtMost(t: Tracker, limit: int, times: seq<int>)
    requires 0 <= t.requestCount <= limit && InWindow(t, times)
    ensures After(t, limit, times) == t.(requestCount := t.requestCount + Admitted(t, limit, times))
    ensures t.requestCount + Admitted(t, limit, times) <= limit
    // it is no stricter than that: fewer than the limit only if there were fewer requests
    ensures t.requestCount + Admitted(t, limit, times) == limit || Admitted(t, limit, times) == |times|
    decreases times
  {
    if times != [] {
      assert !Renews(t, times[0]);
      var rest := times[1..];
      assert forall i | 0 <= i < |rest| :: rest[i] == times[i + 1];
      WindowAdmitsAtMost(Next(t, limit, times[0]), limit, rest);
    }
  }

  ghost predicate Apart(starts: seq<int>) {
    forall i, j | 0 <= i < j < |starts| && j == i + 1 :: starts[j] - starts[i] >= MINUTE
  }

  /** Window starts are a minute apart, even if the clock steps back. */
  lemma {:induction false} WindowsApart(t: Tracker, limit: int, times: seq<int>)
    ensures Apart([t.windowStart] + Windows(t, limit, times))
    decreases times
  {
    if times != [] {
      var t' := Next(t, limit, times[0]);
      WindowsApart(t', limit, times[1..]);
      var w := [t'.windowStart] + Windows(t', limit, times[1..]);
      if Renews(t, times[0]) {
        assert [t.windowStart] + Windows(t, limit, times) == [t.windowStart] + w;
      } else {
        assert [t.windowStart] + Windows(t, limit, times) == w;
      }
    }
  }

  predicate Ordered(times: seq<int>) {
    forall i, j | 0 <= i < j < |times| :: times[i] <= times[j]
  }

  /** Under a nondecreasing clock a span shorter than a minute meets at most two windows. */
  lemma {:induction false} SpanAdmitsAtMost(t: Tracker, limit: int, times: seq<int>)
    requires limit > 0 && 0 <= t.requestCount <= limit && Ordered(times)
    requires times != [] ==> times[|times| - 1] - times[0] < MINUTE
    ensures Admitted(t, limit, times) <= limit - t.requestCount + limit
    ensures times != [] && Renews(t, times[0]) ==> Admitted(t, limit, times) <= limit
    decreases times
  {
    if times != [] {
      var rest := times[1..];
      var t' := Next(t, limit, times[0]);
      assert forall i | 0 <= i < |rest| :: rest[i] == times[i + 1] && times[0] <= rest[i] <= times[|times| - 1];
      if Renews(t, times[0]) {
        assert InWindow(t', rest);
        WindowAdmitsAtMost(t', limit, rest);
      } else {
        SpanAdmitsAtMost(t', limit, rest);
      }
    }
  }

  lemma {:induction false} CountInRange(t: Tracker, limit: int, times: seq<int>)
    requires limit > 0 && 0 <= t.requestCount <= limit
    ensures 0 <= After(t, limit, times).requestCount <= limit
    ensures times != [] ==> After(t, limit, times).requestCount > 0
    decreases times
  {
    if times != [] {
      CountInRange(Next(t, limit, times[0]), limit, times[1..]);
    }
  }

  /**
   Any minute of any run admits at most one request less than twice the limit: the window
   that ends in it was opened by an earlier request. Only the first minute of the epoch,
   which no request opens, could admit one more.
   */
  lemma AnyMinute(limit: int, before: seq<int>, times: seq<int>)
    requires limit > 0 && Ordered(times)
    requires times != [] ==> times[|times| - 1] - times[0] < MINUTE
    ensures before != [] || (times != [] && times[0] >= MINUTE) ==>
              Admitted(After(UNUSED, limit, before), limit, times) <= 2 * limit - 1
    ensures Admitted(After(UNUSED, limit, before), limit, times) <= 2 * limit
  {
    CountInRange(UNUSED, limit, before);
    SpanAdmitsAtMost(After(UNUSED, limit, before), limit, times);
  }

  /** The bound is met: the rest of a window at its end and a full one right after. */
  lemma AnyMinuteIsTight(limit: int)
    requires limit > 0
    ensures var late, early := seq(limit, _ => MINUTE + MINUTE - 1), seq(limit, _ => MINUTE + MINUTE);
            && Ordered(late + early) && (late + early)[2 * limit - 1] - (late + early)[0] < MINUTE
            && Admitted(After(UNUSED, limit, [MINUTE]), limit, late + early) == 2 * limit - 1
  {
    var t := After(UNUSED, limit, [MINUTE]);
    var late, early := seq(limit, _ => MINUTE + MINUTE - 1), seq(limit, _ => MINUTE + MINUTE);
    calc {
      t;
      After(Next(UNUSED, limit, MINUTE), limit, [MINUTE][1..]);
      { assert [MINUTE][1..] == []; }
      Next(UNUSED, limit, MINUTE);
      Tracker(MINUTE, 1);
    }
    WindowAdmitsAtMost(t, limit, late);
    AdmittedSplits(t, limit, late, early);
    var u := After(t, limit, late);
    assert u == Tracker(MINUTE, limit);
    var v := Next(u, limit, early[0]);
    assert v == Tracker(MINUTE + MINUTE, 1);
    WindowAdmitsAtMost(v, limit, early[1..]);
  }

  lemma {:induction false} AdmittedSplits(t: Tracker, limit: int, a: seq<int>, b: seq<int>)
    ensures Admitted(t, limit, a + b) == Admitted(t, limit, a) + Admitted(After(t, limit, a), limit, b)
    decreases a
  {
    if a == [] {
      assert a + b == b;
    } else {
      assert (a + b)[1..] == a[1..] + b;
      AdmittedSplits(Next(t, limit, a[0]), limit, a[1..], b);
    }
  }

  /** A request is turned away exactly when its window is still open and used up. */
  lemma RefusalIsExact(t: Tracker, limit: int, now: int)
    requires limit > 0
    ensures !Admits(t, limit, now) <==> now < t.windowStart + MINUTE && t.requestCount >= limit
  {
  }
}

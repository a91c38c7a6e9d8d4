/** RateLimiter (src/notion/api/rate-limiter.ts): at most a budget of
    requests per interval, the clock passed in and a sleep modelled as an
    advance of that clock. */
module RateLimits {

  /** The limiter's fields `lastRequestTime` and `requestCount`. */
  datatype Window = Window(lastRequestTime: int, requestCount: nat)

  /** What one `wait()` comes to: the fields after it and how long it sleeps
      (0 for no sleep); the clock reads `now + delay` when it returns. */
  datatype Waited = Waited(window: Window, delay: int)

  /** `wait()` at clock time `now` for a limiter of `max` requests per
      `interval` milliseconds. */
  function Step(max: nat, interval: nat, w: Window, now: int): Waited {
    var elapsed := now - w.lastRequestTime;
    if elapsed >= interval then Waited(Window(now, 0), 0)
    else if w.requestCount >= max then
      var delay := interval - elapsed;
      Waited(Window(now + delay, 1), delay)
    else Waited(Window(w.lastRequestTime, w.requestCount + 1), 0)
  }

  /** The delays of consecutive `wait()` calls at the clock times `times`. */
  function Delays(max: nat, interval: nat, w: Window, times: seq<int>): (r: seq<int>)
    ensures |r| == |times|
    decreases |times|
  {
    if times == [] then []
    else
      var r := Step(max, interval, w, times[0]);
      [r.delay] + Delays(max, interval, r.window, times[1..])
  }

  function Max(a: int, b: int): int {
    if a < b then b else a
  }

  /** `wait()` keeps the count within the budget (or 1 for a budget of 0). */
  lemma WaitCountBound(max: nat, interval: nat, w: Window, now: int)
    ensures Step(max, interval, w, now).window.requestCount <= Max(max, 1)
  {
  }

  /** `wait()` sleeps exactly when the window is still open and the budget
      spent; with a clock that does not run backwards the sleep lasts at most
      one interval, and it ends exactly where the old window ends. */
  lemma WaitDelay(max: nat, interval: nat, w: Window, now: int)
    ensures Step(max, interval, w, now).delay != 0
        <==> now - w.lastRequestTime < interval && w.requestCount >= max
    ensures Step(max, interval, w, now).delay >= 0
    ensures now >= w.lastRequestTime ==> Step(max, interval, w, now).delay <= interval
    ensures Step(max, interval, w, now).delay != 0 ==>
      Step(max, interval, w, now).window == Window(w.lastRequestTime + interval, 1)
  {
  }

  /** Inside an open window with budget left, calls pass without delay. */
  lemma {:induction false} InWindowUndelayed(max: nat, interval: nat, start: int, count: nat, times: seq<int>)
    requires count + |times| <= max
    requires forall k | 0 <= k < |times| :: start <= times[k] < start + interval
    ensures Delays(max, interval, Window(start, count), times) == seq(|times|, k => 0)
    decreases |times|
  {
    if times != [] {
      InWindowUndelayed(max, interval, start, count + 1, times[1..]);
    }
  }

  /** Inside an open window with the budget spent, the next call is delayed. */
  lemma InWindowDelayed(max: nat, interval: nat, start: int, now: int)
    requires start <= now < start + interval
    ensures Step(max, interval, Window(start, max), now).delay > 0
  {
  }

  /** As written, the call that opens a window is not counted: that call
      and `max` more inside the window pass without delay, and only the
      one after them is delayed. */
  lemma {:induction false} BurstOfMaxPlusOne(max: nat, interval: nat, w: Window, now: int, times: seq<int>)
    requires now - w.lastRequestTime >= interval
    requires |times| == max + 1
    requires forall k | 0 <= k < |times| :: now <= times[k] < now + interval
    ensures forall k | 0 <= k <= max :: Delays(max, interval, w, [now] + times)[k] == 0
    ensures Delays(max, interval, w, [now] + times)[max + 1] > 0
  {
    var first := times[..max];
    var last := times[max];
    assert Step(max, interval, w, now) == Waited(Window(now, 0), 0);
    assert ([now] + times)[1..] == times;
    InWindowUndelayed(max, interval, now, 0, first);
    DelaysAppend(max, interval, Window(now, 0), first, last);
    assert first + [last] == times;
    InWindowDelayedAfter(max, interval, now, first, last);
  }

  /** The window a run of calls leaves behind. */
  function After(max: nat, interval: nat, w: Window, times: seq<int>): Window
    decreases |times|
  {
    if times == [] then w else After(max, interval, Step(max, interval, w, times[0]).window, times[1..])
  }

  lemma {:induction false} DelaysAppend(max: nat, interval: nat, w: Window, times: seq<int>, t: int)
    ensures Delays(max, interval, w, times + [t])
         == Delays(max, interval, w, times) + [Step(max, interval, After(max, interval, w, times), t).delay]
    decreases |times|
  {
    if times == [] {
      assert [t][1..] == [];
    } else {
      assert (times + [t])[0] == times[0];
      assert (times + [t])[1..] == times[1..] + [t];
      DelaysAppend(max, interval, Step(max, interval, w, times[0]).window, times[1..], t);
    }
  }

  lemma {:induction false} InWindowCounts(max: nat, interval: nat, start: int, count: nat, times: seq<int>)
    requires count + |times| <= max
    requires forall k | 0 <= k < |times| :: start <= times[k] < start + interval
    ensures After(max, interval, Window(start, count), times) == Window(start, count + |times|)
    decreases |times|
  {
    if times != [] {
      InWindowCounts(max, interval, start, count + 1, times[1..]);
    }
  }

  lemma InWindowDelayedAfter(max: nat, interval: nat, start: int, times: seq<int>, t: int)
    requires |times| == max
    requires forall k | 0 <= k < |times| :: start <= times[k] < start + interval
    requires start <= t < start + interval
    ensures Step(max, interval, After(max, interval, Window(start, 0), times), t).delay > 0
  {
    InWindowCounts(max, interval, start, 0, times);
  }

  /** `wait()` as evidently intended: the call that opens a window counts
      towards its budget like every other call. */
  function StepCounted(max: nat, interval: nat, w: Window, now: int): Waited {
    var elapsed := now - w.lastRequestTime;
    if elapsed >= interval then Waited(Window(now, 1), 0)
    else if w.requestCount >= max then
      var delay := interval - elapsed;
      Waited(Window(now + delay, 1), delay)
    else Waited(Window(w.lastRequestTime, w.requestCount + 1), 0)
  }

  function DelaysCounted(max: nat, interval: nat, w: Window, times: seq<int>): (r: seq<int>)
    ensures |r| == |times|
    decreases |times|
  {
    if times == [] then []
    else
      var r := StepCounted(max, interval, w, times[0]);
      [r.delay] + DelaysCounted(max, interval, r.window, times[1..])
  }

  lemma {:induction false} CountedInWindow(max: nat, interval: nat, start: int, count: nat, times: seq<int>)
    requires count + |times| <= max
    requires forall k | 0 <= k < |times| :: start <= times[k] < start + interval
    ensures DelaysCounted(max, interval, Window(start, count), times) == seq(|times|, k => 0)
    decreases |times|
  {
    if times != [] {
      CountedInWindow(max, interval, start, count + 1, times[1..]);
    }
  }

  lemma {:induction false} CountedInWindowThenDelayed(max: nat, interval: nat, start: int, count: nat, times: seq<int>)
    requires |times| > 0 && count + |times| == max + 1
    requires forall k | 0 <= k < |times| :: start <= times[k] < start + interval
    ensures DelaysCounted(max, interval, Window(start, count), times)[|times| - 1] > 0
    decreases |times|
  {
    if |times| > 1 {
      CountedInWindowThenDelayed(max, interval, start, count + 1, times[1..]);
    }
  }

  /** With the opening call counted, a window of budget `max >= 1` lets
      exactly `max` calls through without delay: the call that opens it and
      `max - 1` more; the next one inside the window is delayed. */
  lemma CountedBurst(max: nat, interval: nat, w: Window, now: int, times: seq<int>)
    requires max >= 1
    requires now - w.lastRequestTime >= interval
    requires |times| == max
    requires forall k | 0 <= k < |times| :: now <= times[k] < now + interval
    ensures forall k | 0 <= k < max :: DelaysCounted(max, interval, w, [now] + times)[k] == 0
    ensures DelaysCounted(max, interval, w, [now] + times)[max] > 0
  {
    assert ([now] + times)[1..] == times;
    CountedInWindow(max, interval, now, 1, times[..max - 1]);
    CountedInWindowThenDelayed(max, interval, now, 1, times);
    CountedPrefix(max, interval, Window(now, 1), times, max - 1);
  }

  lemma {:induction false} CountedPrefix(max: nat, interval: nat, w: Window, times: seq<int>, n: nat)
    requires n <= |times|
    ensures DelaysCounted(max, interval, w, times)[..n] == DelaysCounted(max, interval, w, times[..n])
    decreases |times|
  {
    if times != [] {
      CountedPrefix(max, interval, StepCounted(max, interval, w, times[0]).window, times[1..], if n == 0 then 0 else n - 1);
      if n > 0 {
        assert times[..n][0] == times[0];
        assert times[..n][1..] == times[1..][..n - 1];
      }
    }
  }

  /** The default budget: 3 requests per 1000 ms. */
  const DefaultMax: nat := 3
  const DefaultInterval: nat := 1000

  /** The budget `NotionClient` gives its limiter (src/notion/api/client.ts:19). */
  const ClientMax: nat := 334

  /** As written, the client's limiter, fresh from its constructor and
      read at a clock past its first second, lets 335 calls inside one second
      pass without delay; only the 336th waits. */
  lemma ClientBudget(now: int, times: seq<int>)
    requires now >= DefaultInterval
    requires |times| == ClientMax + 1
    requires forall k | 0 <= k < |times| :: now <= times[k] < now + DefaultInterval
    ensures forall k | 0 <= k <= ClientMax :: Delays(ClientMax, DefaultInterval, Window(0, 0), [now] + times)[k] == 0
    ensures Delays(ClientMax, DefaultInterval, Window(0, 0), [now] + times)[ClientMax + 1] > 0
  {
    BurstOfMaxPlusOne(ClientMax, DefaultInterval, Window(0, 0), now, times);
  }

  /** The evidently intended budget of about three requests per second:
      three calls open a second without delay and the fourth waits. */
  lemma IntendedClientBudget(now: int, times: seq<int>)
    requires now >= DefaultInterval
    requires |times| == DefaultMax
    requires forall k | 0 <= k < |times| :: now <= times[k] < now + DefaultInterval
    ensures forall k | 0 <= k < DefaultMax :: DelaysCounted(DefaultMax, DefaultInterval, Window(0, 0), [now] + times)[k] == 0
    ensures DelaysCounted(DefaultMax, DefaultInterval, Window(0, 0), [now] + times)[DefaultMax] > 0
  {
    CountedBurst(DefaultMax, DefaultInterval, Window(0, 0), now, times);
  }

  /** `RateLimiter`, its fields updated in place. */
  class RateLimiter {
    var lastRequestTime: int
    var requestCount: nat
    const maxRequestsPerInterval: nat
    const intervalMs: nat

    /** `new RateLimiter(maxRequestsPerInterval = 3, intervalMs = 1000)` */
    constructor(maxRequestsPerInterval: nat := DefaultMax, intervalMs: nat := DefaultInterval)
      ensures this.maxRequestsPerInterval == maxRequestsPerInterval && this.intervalMs == intervalMs
      ensures lastRequestTime == 0 && requestCount == 0
    {
      this.maxRequestsPerInterval := maxRequestsPerInterval;
      this.intervalMs := intervalMs;
      lastRequestTime := 0;
      requestCount := 0;
    }

    /** `wait()` at clock time `now`; returns how long it sleeps. */
    method Wait(now: int) returns (delay: int)
      modifies this
      ensures Waited(Window(lastRequestTime, requestCount), delay)
           == Step(maxRequestsPerInterval, intervalMs, Window(old(lastRequestTime), old(requestCount)), now)
    {
      var timeElapsed := now - lastRequestTime;
      if timeElapsed >= intervalMs {
        requestCount := 0;
        lastRequestTime := now;
        return 0;
      }
      delay := 0;
      if requestCount >= maxRequestsPerInterval {
        delay := intervalMs - timeElapsed;
        requestCount := 0;
        lastRequestTime := now + delay;
      }
      requestCount := requestCount + 1;
    }
  }
}

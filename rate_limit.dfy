/** The minimum-interval gate in front of every request to the NCBI
    E-utilities: at most one request per 0.34 s, i.e. under three per second.
    The searcher and the content downloader each own one (their
    `_rate_limit` methods are the same code over their own
    `last_request_time`). Time is measured in whole milliseconds. */
module RateLimit {

  /** `rate_limit_delay = 0.34` seconds. */
  const Delay: int := 340

  /** The wall clock, in milliseconds. Time only moves forward, and by an
      amount the model does not fix: a reading may come some time after
      the previous one, and a sleep may last longer than asked. */
  class Clock {
    var now: int

    constructor (start: int)
      ensures now == start
    {
      now := start;
    }

    /** `time.time()`: the current time, which is no earlier than at the
        previous reading (the work in between takes some time). */
    method Time() returns (t: int)
      modifies this
      ensures old(now) <= now && t == now
    {
      t := now;
    }

    /** `time.sleep(d)` for the positive durations the limiter passes it:
        it returns no sooner than `d` later. */
    method Sleep(d: int)
      requires d > 0
      modifies this
      ensures now >= old(now) + d
    {
      now := now + d;
    }
  }

  /** The last grant time, or 0 (the initial `last_request_time`) before any. */
  function LastGrant(grants: seq<int>): int {
    if grants == [] then 0 else grants[|grants| - 1]
  }

  /** Grant times that keep the interval: each at least `Delay` after the
      previous one, the first at least `Delay` after time 0. */
  ghost predicate Spaced(grants: seq<int>)
    decreases |grants|
  {
    grants == [] ||
    (var init := grants[..|grants| - 1];
     Spaced(init) && grants[|grants| - 1] >= LastGrant(init) + Delay)
  }

  function Max(a: int, b: int): int {
    if a >= b then a else b
  }

  class RateLimiter {
    var lastRequestTime: int
    /** Every time a request was let through, oldest first. */
    ghost var grants: seq<int>

    ghost predicate Valid()
      reads this
    {
      Spaced(grants) && lastRequestTime == LastGrant(grants)
    }

    constructor ()
      ensures Valid() && grants == [] && lastRequestTime == 0
    {
      lastRequestTime := 0;
      grants := [];
    }

    /** `_rate_limit`: sleep until `Delay` has passed since the last grant,
        then record the clock as the new grant time. */
    method Acquire(clock: Clock)
      requires Valid()
      modifies this, clock
      ensures Valid()
      ensures lastRequestTime >= old(lastRequestTime) + Delay
      ensures lastRequestTime >= Max(old(clock.now), old(lastRequestTime) + Delay)
      ensures clock.now == lastRequestTime
      ensures grants == old(grants) + [lastRequestTime]
    {
      var currentTime := clock.Time();
      var timeSinceLast := currentTime - lastRequestTime;
      if timeSinceLast < Delay {
        var sleepTime := Delay - timeSinceLast;
        clock.Sleep(sleepTime);
      }
      ghost var before := grants;
      lastRequestTime := clock.Time();
      grants := grants + [lastRequestTime];
      assert grants[..|grants| - 1] == before;
    }
  }

  /** `n` grants in a row span at least `(n - 1) * Delay`, and the `k`-th
      grant comes no earlier than `(k + 1) * Delay`: back-to-back requests
      are throttled to the configured rate. */
  lemma {:induction false} SpacedSpan(grants: seq<int>)
    requires Spaced(grants) && grants != []
    ensures grants[|grants| - 1] - grants[0] >= (|grants| - 1) * Delay
    ensures forall k :: 0 <= k < |grants| ==> grants[k] >= (k + 1) * Delay
  {
    var init := grants[..|grants| - 1];
    if init != [] {
      SpacedSpan(init);
      forall k | 0 <= k < |grants|
        ensures grants[k] >= (k + 1) * Delay
      {
        if k < |init| {
          assert grants[k] == init[k];
        }
      }
    }
  }
}

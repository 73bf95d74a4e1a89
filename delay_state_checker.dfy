/** The delayed state checker: a reading is mapped to a state by a check
    function, and the checker's state follows it only once the readings have
    disagreed with the state for longer than the delay. Times are readings
    of a steady clock in ticks, passed in as `now`; the delay is in
    milliseconds. */
module DelayStateChecker {
  import opened Wrappers

  /** Clock ticks per millisecond: a steady clock counting nanoseconds. */
  const TicksPerMs: int := 1000000

  /** The whole milliseconds between two readings, truncated toward zero
      as a `duration_cast` to milliseconds does. */
  function ElapsedMs(from: int, to: int): (r: int)
  {
    var d := to - from;
    if d >= 0 then d / TicksPerMs else -((-d) / TicksPerMs)
  }

  /** With a non-negative delay, more than `delay` whole milliseconds have
      passed exactly when at least `delay + 1` full milliseconds of ticks
      lie between the readings: a part millisecond never counts. */
  lemma ElapsedExceedsIff(from: int, to: int, delay: int)
    requires delay >= 0
    ensures ElapsedMs(from, to) > delay <==> to - from >= (delay + 1) * TicksPerMs
  {
    var d := to - from;
    if d >= 0 {
      var q := d / TicksPerMs;
      assert d == q * TicksPerMs + d % TicksPerMs;
      if q > delay {
        assert q >= delay + 1;
        assert q * TicksPerMs >= (delay + 1) * TicksPerMs;
      } else {
        assert q * TicksPerMs <= delay * TicksPerMs;
      }
    } else {
      assert (-d) / TicksPerMs >= 0;
    }
  }

  /** The part of the checker one update works on. */
  datatype Timing = Timing(state: int, lastUpdate: int)

  /** One update with check result `cur` at time `now`: agreement restarts
      the timer; disagreement switches the state (and restarts the timer)
      only when strictly more than `delay` whole milliseconds have passed
      since the timer last restarted, and changes nothing otherwise. */
  function Step(t: Timing, delay: int, cur: int, now: int): (r: Timing)
    ensures r.state == t.state || r.state == cur
    ensures r.state != t.state <==> cur != t.state && ElapsedMs(t.lastUpdate, now) > delay
    ensures r.lastUpdate == (if r.state == t.state && cur != t.state then t.lastUpdate else now)
  {
    if cur != t.state then
      if ElapsedMs(t.lastUpdate, now) > delay then Timing(cur, now) else t
    else Timing(t.state, now)
  }

  /** Updates one after another: `readings` holds check results with their times. */
  function Run(t: Timing, delay: int, readings: seq<(int, int)>): Timing
    decreases |readings|
  {
    if readings == [] then t
    else Run(Step(t, delay, readings[0].0, readings[0].1), delay, readings[1..])
  }

  /** Debouncing: readings that all disagree with the state and all come
      within the delay of the last agreement leave state and timer alone. */
  lemma {:induction false} ShortDisagreementIgnored(t: Timing, delay: int, readings: seq<(int, int)>)
    requires forall k :: 0 <= k < |readings| ==> readings[k].0 != t.state && ElapsedMs(t.lastUpdate, readings[k].1) <= delay
    ensures Run(t, delay, readings) == t
    decreases |readings|
  {
    if readings != [] {
      assert Step(t, delay, readings[0].0, readings[0].1) == t;
      forall k | 0 <= k < |readings| - 1
        ensures readings[1..][k].0 != t.state && ElapsedMs(t.lastUpdate, readings[1..][k].1) <= delay
      {
        assert readings[1..][k] == readings[k + 1];
      }
      ShortDisagreementIgnored(t, delay, readings[1..]);
    }
  }

  /** A state reached by updates is the starting state or one of the check
      results. */
  lemma {:induction false} RunStateIsReading(t: Timing, delay: int, readings: seq<(int, int)>)
    ensures var s := Run(t, delay, readings).state;
      s == t.state || exists k :: 0 <= k < |readings| && readings[k].0 == s
    decreases |readings|
  {
    if readings != [] {
      var t1 := Step(t, delay, readings[0].0, readings[0].1);
      RunStateIsReading(t1, delay, readings[1..]);
      var s := Run(t, delay, readings).state;
      if s != t1.state {
        var k :| 0 <= k < |readings[1..]| && readings[1..][k].0 == s;
        assert readings[k + 1].0 == s;
      } else if s != t.state {
        assert readings[0].0 == s;
      }
    }
  }

  /** Two readings that disagree with the state, the second more than the
      delay after the last agreement, switch the state to the second one. */
  lemma SwitchAfterDelay(t: Timing, delay: int, a: int, ta: int, b: int, tb: int)
    requires a != t.state && ElapsedMs(t.lastUpdate, ta) <= delay
    requires b != t.state && ElapsedMs(t.lastUpdate, tb) > delay
    ensures Run(t, delay, [(a, ta), (b, tb)]) == Timing(b, tb)
  {
    var rs := [(a, ta), (b, tb)];
    assert rs[0] == (a, ta) && rs[1..] == [(b, tb)];
    assert Step(t, delay, a, ta) == t;
    assert Run(t, delay, rs) == Run(t, delay, [(b, tb)]);
    assert [(b, tb)][1..] == [];
    assert Run(t, delay, [(b, tb)]) == Run(Timing(b, tb), delay, []);
  }

  /** The truncation at work: with a delay of 100 ms, a timer restarted
      at 0.9 ms and a disagreeing reading at 101.5 ms measure 100 whole
      milliseconds, so the disagreement is still ignored although more
      than 100 ms of ticks have passed. */
  lemma PartMillisecondIgnored(t: Timing, cur: int)
    requires t.lastUpdate == 900000 && cur != t.state
    ensures 101500000 - t.lastUpdate > 100 * TicksPerMs
    ensures Step(t, 100, cur, 101500000) == t
  {
    assert ElapsedMs(t.lastUpdate, 101500000) == 100;
  }

  class QtDelayStateChecker {
    var state: int
    var delayMs: int
    var lastUpdate: int
    /** The check function, None until one is set. */
    var check: Option<int -> int>
    /** Whether a state-changed callback is set. */
    var hasCallback: bool
    /** The states the callback has been called with, oldest first. */
    var notified: seq<int>

    /** A new checker: state 0, delay 0, no functions, timer started at `now`. */
    constructor (now: int)
      ensures state == 0 && delayMs == 0 && lastUpdate == now
      ensures check.None? && !hasCallback && notified == []
    {
      state := 0;
      delayMs := 0;
      lastUpdate := now;
      check := None;
      hasCallback := false;
      notified := [];
    }

    /** Sets the check function and the callback and restarts the timer. */
    method SetCheckFunc(funcCheck: Option<int -> int>, withCallback: bool, now: int)
      modifies this
      ensures check == funcCheck && hasCallback == withCallback && lastUpdate == now
      ensures state == old(state) && delayMs == old(delayMs) && notified == old(notified)
    {
      check := funcCheck;
      hasCallback := withCallback;
      lastUpdate := now;
    }

    /** A reading: nothing happens without a check function; otherwise the
        timing follows `Step`, and the callback is called with the new state
        exactly when the state changes (and a callback is set). */
    method UpdateData(value: int, now: int)
      modifies this
      ensures check == old(check) && hasCallback == old(hasCallback) && delayMs == old(delayMs)
      ensures old(check).None? ==> state == old(state) && lastUpdate == old(lastUpdate) && notified == old(notified)
      ensures old(check).Some? ==>
        Timing(state, lastUpdate) == Step(Timing(old(state), old(lastUpdate)), delayMs, old(check).value(value), now)
      ensures old(check).Some? ==>
        notified == old(notified) + (if state != old(state) && hasCallback then [state] else [])
    {
      if check.None? {
        return;
      }
      var duration := ElapsedMs(lastUpdate, now);
      var curState := check.value(value);
      if curState != state {
        if duration > delayMs {
          state := curState;
          if hasCallback {
            notified := notified + [state];
          }
          lastUpdate := now;
        }
      } else {
        lastUpdate := now;
      }
    }

    /** Sets the delay and restarts the timer. */
    method SetDelayTime(ms: int, now: int)
      modifies this
      ensures delayMs == ms && lastUpdate == now
      ensures state == old(state) && check == old(check) && hasCallback == old(hasCallback) && notified == old(notified)
    {
      delayMs := ms;
      lastUpdate := now;
    }

    /** Forces the state and restarts the timer, without the callback. */
    method SetState(newState: int, now: int)
      modifies this
      ensures state == newState && lastUpdate == now
      ensures delayMs == old(delayMs) && check == old(check) && hasCallback == old(hasCallback) && notified == old(notified)
    {
      state := newState;
      lastUpdate := now;
    }
  }
}

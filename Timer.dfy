/**
 * The one-shot `Timer` future (`os_time/timer.rs`).  A timer holds its expiry
 * instant and a `yielded_once` flag.  Polling it either completes or asks the
 * executor to wake the polling task at the expiry (`schedule_wake`); the model
 * returns that request instead of performing it, and takes the clock reading
 * `Instant::now()` as a parameter.
 */
module Timer {
  import opened Config
  import opened Wrappers
  import Duration
  import Instant

  /** What one call of `poll` yields: `Ready`, or `Pending` with the wake it scheduled. */
  datatype PollResult = Ready | Pending(wakeAt: u64)

  class Timer {
    var expiresAt: Instant.Instant
    var yieldedOnce: bool

    /** `Timer::at`. */
    constructor At(expiresAt: Instant.Instant)
      ensures this.expiresAt == expiresAt && !yieldedOnce
    {
      this.expiresAt := expiresAt;
      yieldedOnce := false;
    }

    /**
     * `Future::poll`.  Ready only on a poll after the first one, once the expiry
     * has passed, and then the flag is cleared; every other poll schedules a wake
     * at the expiry and sets the flag.
     */
    method Poll(now: Instant.Instant) returns (r: PollResult)
      modifies this
      ensures expiresAt == old(expiresAt)
      ensures r == Ready <==> old(yieldedOnce) && Instant.Le(expiresAt, now)
      ensures r == Ready ==> !yieldedOnce
      ensures r != Ready ==> r == Pending(expiresAt.ticks) && yieldedOnce
    {
      if yieldedOnce && Instant.Le(expiresAt, now) {
        yieldedOnce := false;
        r := Ready;
      } else {
        r := Pending(Instant.AsTicks(expiresAt));
        yieldedOnce := true;
      }
    }
  }

  /** `Timer::after`: expires at now + d, and panics if that overflows. */
  method After(now: Instant.Instant, d: Duration.Duration) returns (r: Outcome<Timer>)
    ensures r.Panic? <==> now.ticks + d.ticks > U64_MAX
    ensures r.Done? ==> fresh(r.value) && !r.value.yieldedOnce &&
                        r.value.expiresAt.ticks == now.ticks + d.ticks
  {
    var e := Instant.Add(now, d);
    if e.Panic? {
      r := Panic(e.reason);
    } else {
      var t := new Timer.At(e.value);
      r := Done(t);
    }
  }

  /** `Timer::after_ticks`. */
  method AfterTicks(now: Instant.Instant, ticks: u64) returns (r: Outcome<Timer>)
    ensures r.Panic? <==> now.ticks + ticks > U64_MAX
    ensures r.Done? ==> fresh(r.value) && !r.value.yieldedOnce &&
                        r.value.expiresAt.ticks == now.ticks + ticks
  {
    r := After(now, Duration.FromTicks(ticks));
  }

  /** `Timer::after_micros`: the delay is from_micros(micros), rounded up. */
  method AfterMicros(hz: nat, now: Instant.Instant, micros: u64) returns (r: Outcome<Timer>)
    requires Duration.ScaleFits(hz, 1_000_000, micros)
    ensures r.Panic? <==> now.ticks + Duration.FromMicros(hz, micros).ticks > U64_MAX
    ensures r.Done? ==> fresh(r.value) && !r.value.yieldedOnce &&
                        r.value.expiresAt.ticks == now.ticks + Duration.FromMicros(hz, micros).ticks
  {
    r := After(now, Duration.FromMicros(hz, micros));
  }

  /** `Timer::after_millis`: the delay is from_millis(millis), rounded up. */
  method AfterMillis(hz: nat, now: Instant.Instant, millis: u64) returns (r: Outcome<Timer>)
    requires Duration.ScaleFits(hz, 1000, millis)
    ensures r.Panic? <==> now.ticks + Duration.FromMillis(hz, millis).ticks > U64_MAX
    ensures r.Done? ==> fresh(r.value) && !r.value.yieldedOnce &&
                        r.value.expiresAt.ticks == now.ticks + Duration.FromMillis(hz, millis).ticks
  {
    r := After(now, Duration.FromMillis(hz, millis));
  }

  /** `Timer::after_secs`: the delay is secs * hz ticks. */
  method AfterSecs(hz: nat, now: Instant.Instant, secs: u64) returns (r: Outcome<Timer>)
    requires secs * hz <= U64_MAX
    ensures r.Panic? <==> now.ticks + secs * hz > U64_MAX
    ensures r.Done? ==> fresh(r.value) && !r.value.yieldedOnce &&
                        r.value.expiresAt.ticks == now.ticks + secs * hz
  {
    r := After(now, Duration.FromSecs(hz, secs));
  }

  /**
   * The first poll of a fresh timer is always Pending, whatever the clock says;
   * a second poll completes iff the expiry has passed.
   */
  method FirstPollPending(at: Instant.Instant, now1: Instant.Instant, now2: Instant.Instant)
    returns (first: PollResult, second: PollResult)
    ensures first == Pending(at.ticks)
    ensures second == Ready <==> Instant.Le(at, now2)
    ensures second != Ready ==> second == Pending(at.ticks)
  {
    var t := new Timer.At(at);
    first := t.Poll(now1);
    second := t.Poll(now2);
  }
}

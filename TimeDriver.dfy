/**
 * The tick-clock driver of the STM32F401RE port (`RtcDriver`, present in four
 * copies across the crates).  A 16-bit hardware timer counts ticks; software
 * counts `period`s of 2^15 ticks so that `calc_now` can build a 64-bit time
 * from the period and the counter.  Three alarm slots each hold a timestamp and
 * a callback; alarm `n` uses compare channel `n + 1` of the timer, whose
 * compare value and interrupt-enable bit the model keeps as plain fields.
 * The counter itself is hardware, so every operation that reads the clock
 * takes the reading `now` as a parameter.
 *
 * The copies differ in one respect: the newer ARM copy counts a period only on
 * overflow (its half-overflow call of `next_period` is commented out), the
 * others on overflow and on the half-overflow compare.  `halfOverflow` selects
 * which.
 */
module TimeDriver {
  import opened Wrappers
  import opened Config
  import Arith

  /** `ALARM_COUNT` for the general-purpose timers (TIM2..TIM5). */
  const ALARM_COUNT: nat := 3
  /** A timestamp of u64::MAX means "no alarm". */
  const NO_ALARM: nat := U64_MAX
  /** Ticks in one period. */
  const PERIOD_TICKS: nat := 0x8000
  /** An alarm is armed in hardware once it is due within this many ticks. */
  const ARM_WINDOW: nat := 0xc000

  /** `AlarmHandle`: `new(id)` stores the id and `id()` returns it. */
  datatype AlarmHandle = AlarmHandle(id: u8)

  /**
   * `AlarmState`: the timestamp, and the callback and context pointers
   * (0 is the null pointer).
   */
  datatype AlarmState = AlarmState(timestamp: u64, callback: nat, ctx: nat)

  /** `AlarmState::new`: no alarm, null callback, null context. */
  function NewAlarmState(): (a: AlarmState)
    ensures a.timestamp == NO_ALARM && a.callback == 0 && a.ctx == 0
  {
    AlarmState(NO_ALARM, 0, 0)
  }

  /**
   * `calc_now(period, counter)`: `(period << 15) + (counter ^ ((period & 1) << 15))`
   * on u32 and u64.  An odd period flips the counter's top bit, which on 16
   * bits is adding 2^15 modulo 2^16 (`XorTopBitIsAdd`).
   */
  function CalcNow(period: u32, counter: u16): (r: u64)
    ensures period * PERIOD_TICKS <= r < period * PERIOD_TICKS + 0x10000
    ensures period % 2 == 0 ==> r - period * PERIOD_TICKS == counter
    ensures period % 2 == 1 ==> (r - period * PERIOD_TICKS) % PERIOD_TICKS == counter % PERIOD_TICKS
    ensures period % 2 == 1 ==> (r - period * PERIOD_TICKS < PERIOD_TICKS <==> counter >= PERIOD_TICKS)
  {
    var low := if period % 2 == 1 then (counter + 0x8000) % 0x10000 else counter;
    period * PERIOD_TICKS + low
  }

  /** On 16 bits, flipping the top bit and adding 2^15 are the same. */
  lemma XorTopBitIsAdd(c: bv16)
    ensures c ^ 0x8000 == c + 0x8000
  {
  }

  /**
   * When the period counts both the overflow and the half-overflow of the
   * counter, it is the number of 2^15-tick spans elapsed, and `calc_now`
   * gives back exactly the elapsed ticks `t`.
   */
  lemma CalcNowTracksTime(t: nat)
    requires t / PERIOD_TICKS <= U32_MAX
    ensures CalcNow(t / PERIOD_TICKS, t % 0x10000) == t
  {
    var q := t / 0x10000;
    var c := t % 0x10000;
    var h := c / PERIOD_TICKS;
    var l := c % PERIOD_TICKS;
    assert t == q * 0x10000 + c;
    assert c == h * PERIOD_TICKS + l;
    assert h == 0 || h == 1;
    assert t == (2 * q + h) * PERIOD_TICKS + l;
    Arith.DivUnique(t, PERIOD_TICKS, 2 * q + h, l);
    var p := 2 * q + h;
    assert p % 2 == h;
  }

  /**
   * When the period counts only overflows, as in the newer ARM copy, it is the
   * number of 2^16-tick spans, and `calc_now` runs at half speed after the
   * first one: 131072 ticks read as 65536.
   */
  lemma OverflowOnlyLosesTime()
    ensures var t := 0x20000;
            CalcNow(t / 0x10000, t % 0x10000) == 0x10000 != t
  {
  }

  /** `init`'s prescaler `APB_HZ / TICK_HZ - 1`, truncated to u32, which must fit in u16. */
  function Prescaler(apbHz: nat, tickHz: nat): (r: Outcome<u16>)
    requires tickHz > 0
    ensures r.Done? <==> 1 <= (apbHz / tickHz) % (U32_MAX + 1) <= U16_MAX + 1
    ensures r.Done? ==> r.value + 1 == (apbHz / tickHz) % (U32_MAX + 1)
  {
    var q := (apbHz / tickHz) % (U32_MAX + 1);
    if q == 0 then Panic("attempt to subtract with overflow")
    else if q - 1 > U16_MAX then Panic("psc division overflow")
    else Done(q - 1)
  }

  /**
   * The AHB prescaler decoded from `RCC_CFGR.HPRE` by `get_APBfreq`: 0b1000
   * to 0b1111 select 2, 4, 8, 16, 64, 128, 256, 512 and everything else 1.
   */
  function AhbPrescaler(hpre: nat): (d: nat)
    ensures hpre < 8 || hpre > 15 ==> d == 1
    ensures 8 <= hpre <= 11 ==> d == Pow2(hpre - 7)
    ensures 12 <= hpre <= 15 ==> d == Pow2(hpre - 6)
  {
    Pow2Values();
    if hpre == 0x8 then 2
    else if hpre == 0x9 then 4
    else if hpre == 0xa then 8
    else if hpre == 0xb then 16
    else if hpre == 0xc then 64
    else if hpre == 0xd then 128
    else if hpre == 0xe then 256
    else if hpre == 0xf then 512
    else 1
  }

  function Pow2(n: nat): (r: nat)
    ensures r >= 1
  {
    if n == 0 then 1 else 2 * Pow2(n - 1)
  }

  lemma Pow2Values()
    ensures Pow2(1) == 2 && Pow2(2) == 4 && Pow2(3) == 8 && Pow2(4) == 16
    ensures Pow2(6) == 64 && Pow2(7) == 128 && Pow2(8) == 256 && Pow2(9) == 512
  {
  }

  /** The system-clock source selected by `RCC_CFGR.SW`. */
  datatype ClockSource = Hsi | Hse | Pll | Other

  /**
   * The system clock as `get_APBfreq` of the newer STM32F401RE copy reads it:
   * 16 MHz from HSI (or an unknown source), 8 MHz from HSE, or from the PLL
   * `(hse ? 8 MHz : 16 MHz) / pllm * plln / pllp` with `pllp = 2 * (PLLP + 1)`.
   * A zero `pllm` divides by zero and panics.  The product `vco_input * plln`
   * is a `u32` product, which the release build wraps modulo 2^32.
   */
  function SysClk(sw: ClockSource, hseReady: bool, pllm: nat, plln: nat, pllpBits: nat): (r: Outcome<nat>)
    ensures r.Panic? <==> sw == Pll && pllm == 0
    ensures r.Done? ==> r.value <= U32_MAX
    ensures r.Done? && sw == Hse ==> r.value == 8_000_000
    ensures r.Done? && sw != Pll && sw != Hse ==> r.value == 16_000_000
    ensures r.Done? && sw == Pll && (if hseReady then 8_000_000 else 16_000_000) / pllm * plln <= U32_MAX ==>
              r.value == (if hseReady then 8_000_000 else 16_000_000) / pllm * plln / (2 * (pllpBits + 1))
  {
    match sw
    case Hsi => Done(16_000_000)
    case Hse => Done(8_000_000)
    case Other => Done(16_000_000)
    case Pll =>
      if pllm == 0 then Panic("attempt to divide by zero")
      else
        var vcoIn := Div(if hseReady then 8_000_000 else 16_000_000, pllm);
        Done(Div(Mul(vcoIn, plln), 2 * (pllpBits + 1)))
  }

  /** A wrapping `u32` product. */
  function Mul(a: nat, b: nat): (r: nat)
    ensures r <= U32_MAX
    ensures a * b <= U32_MAX ==> r == a * b
  {
    (a * b) % (U32_MAX + 1)
  }

  function Div(a: nat, b: nat): (r: nat)
    requires b > 0
  {
    a / b
  }

  /**
   * From HSI with PLLM 1 the VCO input is 16 MHz, so PLLN 269 or more
   * overflows `u32`: PLLN 300 and PLLP 2 give 252516352 Hz instead of
   * 2.4 GHz.
   */
  lemma SysClkWraps()
    ensures 16_000_000 * 300 > U32_MAX
    ensures SysClk(Pll, false, 1, 300, 0) == Done(252_516_352)
    ensures 16_000_000 * 268 <= U32_MAX && SysClk(Pll, false, 1, 268, 0) == Done(2_144_000_000)
  {
  }

  /** `APB_HZ` as `get_APBfreq` sets it: the system clock over the AHB prescaler. */
  function ApbHz(sw: ClockSource, hseReady: bool, pllm: nat, plln: nat, pllpBits: nat, hpre: nat): (r: Outcome<nat>)
    ensures r.Panic? <==> sw == Pll && pllm == 0
    ensures r.Done? ==> r.value <= SysClk(sw, hseReady, pllm, plln, pllpBits).value
    ensures r.Done? && (hpre < 8 || hpre > 15) ==> r.value == SysClk(sw, hseReady, pllm, plln, pllpBits).value
  {
    match SysClk(sw, hseReady, pllm, plln, pllpBits)
    case Panic(e) => Panic(e)
    case Done(sysclk) => Done(sysclk / AhbPrescaler(hpre))
  }

  /**
   * With the clock tree `rcc_init` sets up (PLL from an 8 MHz HSE, PLLM 4,
   * PLLN 84, PLLP 2, AHB undivided) the timer clock is 84 MHz, and at the
   * default 100 kHz tick the prescaler register holds 839.
   */
  lemma RccInitClock()
    ensures ApbHz(Pll, true, 4, 84, 0, 0) == Done(84_000_000)
    ensures Prescaler(84_000_000, 100_000) == Done(839)
  {
  }

  /**
   * `get_APBfreq` of the ARM copy takes `APB_HZ` from the HAL's clock
   * configuration and only checks it was stored: zero panics.
   */
  function StoredApbHz(apbHz: nat): (r: Outcome<nat>)
    ensures r.Panic? <==> apbHz == 0
    ensures r.Done? ==> r.value == apbHz
  {
    if apbHz == 0 then Panic("APB frequency not set") else Done(apbHz)
  }

  /** The enable bits after `next_period` reached the period starting at tick `t`. */
  function PeriodEnables(ie: seq<bool>, alarms: seq<AlarmState>, t: nat): (r: seq<bool>)
    requires |ie| == |alarms|
    ensures |r| == |ie|
    ensures forall k :: 0 <= k < |r| ==> (r[k] <==> ie[k] || alarms[k].timestamp < t + ARM_WINDOW)
  {
    seq(|ie|, k requires 0 <= k < |ie| => ie[k] || alarms[k].timestamp < t + ARM_WINDOW)
  }

  class RtcDriver {
    /** `period`: periods of 2^15 ticks counted so far. */
    var period: u32
    /** `alarm_count`: alarm handles handed out so far. */
    var alarmCount: u8
    var alarms: seq<AlarmState>
    /** `DIER.CCIE(n + 1)`: compare interrupt of alarm `n` enabled. */
    var alarmIe: seq<bool>
    /** `CCR(n + 1)`: compare value of alarm `n`. */
    var ccr: seq<u16>
    /** The driver counts a period on the half-overflow compare as well. */
    const halfOverflow: bool

    ghost predicate Valid()
      reads this
    {
      |alarms| == ALARM_COUNT && |alarmIe| == ALARM_COUNT && |ccr| == ALARM_COUNT &&
      alarmCount <= ALARM_COUNT
    }

    /**
     * `RtcDriver::new`: period 0, no alarm handed out, three unscheduled slots
     * with null callbacks; the compare registers are at their reset value 0.
     */
    constructor (halfOverflow: bool)
      ensures Valid() && period == 0 && alarmCount == 0 && this.halfOverflow == halfOverflow
      ensures forall k :: 0 <= k < ALARM_COUNT ==> alarms[k] == NewAlarmState() && !alarmIe[k] && ccr[k] == 0
    {
      period := 0;
      alarmCount := 0;
      alarms := [NewAlarmState(), NewAlarmState(), NewAlarmState()];
      alarmIe := [false, false, false];
      ccr := [0, 0, 0];
      this.halfOverflow := halfOverflow;
    }

    /**
     * `now()`: the time built from the software period and the hardware
     * counter reading; it lies in the current period's 2^16-tick window.
     */
    function Now(counter: u16): (r: u64)
      reads this
      ensures period * PERIOD_TICKS <= r < period * PERIOD_TICKS + 0x10000
    {
      CalcNow(period, counter)
    }

    /**
     * `allocate_alarm`: the ids 0, 1, 2 in order, then `None` for good; the
     * count never passes `ALARM_COUNT`.
     */
    method AllocateAlarm() returns (h: Option<AlarmHandle>)
      requires Valid()
      modifies this`alarmCount
      ensures Valid()
      ensures old(alarmCount) < ALARM_COUNT ==> h == Some(AlarmHandle(old(alarmCount))) && alarmCount == old(alarmCount) + 1
      ensures old(alarmCount) >= ALARM_COUNT ==> h == None && alarmCount == old(alarmCount)
    {
      var id := alarmCount;
      if id < ALARM_COUNT {
        alarmCount := id + 1;
        h := Some(AlarmHandle(id));
      } else {
        h := None;
      }
    }

    /** `set_alarm_callback`: the slot's callback and context are replaced; its timestamp is kept. */
    method SetAlarmCallback(h: AlarmHandle, callback: nat, ctx: nat)
      requires Valid() && h.id < ALARM_COUNT
      modifies this`alarms
      ensures Valid()
      ensures alarms == old(alarms)[h.id := AlarmState(old(alarms[h.id].timestamp), callback, ctx)]
    {
      alarms := alarms[h.id := alarms[h.id].(callback := callback, ctx := ctx)];
    }

    /**
     * `set_alarm(h, timestamp)`, reading the clock as `now1` and then `now2`
     * (the clock is monotonic).  u64::MAX disarms the slot and reports success.
     * A timestamp not after `now1`, or not after `now2` once the compare is
     * written, disarms the slot and reports failure.  Otherwise the slot holds
     * the timestamp, the compare holds its low 16 bits, its interrupt is
     * enabled only if it is due within 0xc000 ticks (`next_period` enables it
     * later), and the result is success.  Other slots are untouched.
     */
    method SetAlarm(h: AlarmHandle, timestamp: u64, now1: nat, now2: nat) returns (ok: bool)
      requires Valid() && h.id < ALARM_COUNT && now1 <= now2
      modifies this`alarms, this`alarmIe, this`ccr
      ensures Valid()
      ensures ok <==> timestamp == NO_ALARM || timestamp > now2
      ensures forall k :: 0 <= k < ALARM_COUNT && k != h.id ==>
                alarms[k] == old(alarms[k]) && alarmIe[k] == old(alarmIe[k]) && ccr[k] == old(ccr[k])
      ensures alarms[h.id].callback == old(alarms[h.id].callback) && alarms[h.id].ctx == old(alarms[h.id].ctx)
      ensures !ok || timestamp == NO_ALARM ==> alarms[h.id].timestamp == NO_ALARM && !alarmIe[h.id]
      ensures ok && timestamp != NO_ALARM ==>
                alarms[h.id].timestamp == timestamp && ccr[h.id] == timestamp % 0x10000 &&
                (alarmIe[h.id] <==> timestamp - now1 < ARM_WINDOW)
      ensures timestamp <= now1 ==> ccr == old(ccr)
    {
      var n := h.id;
      if timestamp == NO_ALARM {
        alarms := alarms[n := alarms[n].(timestamp := NO_ALARM)];
        alarmIe := alarmIe[n := false];
        return true;
      }
      alarms := alarms[n := alarms[n].(timestamp := timestamp)];
      if timestamp <= now1 {
        alarmIe := alarmIe[n := false];
        alarms := alarms[n := alarms[n].(timestamp := NO_ALARM)];
        return false;
      }
      ccr := ccr[n := timestamp % 0x10000];
      var diff := timestamp - now1;
      alarmIe := alarmIe[n := diff < ARM_WINDOW];
      if timestamp <= now2 {
        alarmIe := alarmIe[n := false];
        alarms := alarms[n := alarms[n].(timestamp := NO_ALARM)];
        return false;
      }
      ok := true;
    }

    /**
     * `next_period`: the period advances by one, and every slot due before the
     * new period's start plus 0xc000 gets its compare interrupt enabled; no
     * enable bit is cleared.  The u32 increment wraps from u32::MAX to 0, as
     * the unchecked `+ 1` does in a release build.
     */
    method NextPeriod()
      requires Valid()
      modifies this`period, this`alarmIe
      ensures Valid() && period == (old(period) + 1) % (U32_MAX + 1)
      ensures alarmIe == PeriodEnables(old(alarmIe), alarms, period * PERIOD_TICKS)
    {
      period := (period + 1) % (U32_MAX + 1);
      var t := period * PERIOD_TICKS;
      ghost var ie0 := alarmIe;
      for n := 0 to ALARM_COUNT
        invariant |alarmIe| == ALARM_COUNT && period == (old(period) + 1) % (U32_MAX + 1)
        invariant forall k :: 0 <= k < n ==> (alarmIe[k] <==> ie0[k] || alarms[k].timestamp < t + ARM_WINDOW)
        invariant forall k :: n <= k < ALARM_COUNT ==> alarmIe[k] == ie0[k]
      {
        var at := alarms[n].timestamp;
        if at < t + ARM_WINDOW {
          alarmIe := alarmIe[n := true];
        }
      }
      assert alarmIe == PeriodEnables(ie0, alarms, t);
    }

    /**
     * `trigger_alarm(n)`: the slot is cleared to "no alarm" first, then its
     * callback is called with its context; the model returns the pair for the
     * caller to call.
     */
    method TriggerAlarm(n: nat) returns (callback: nat, ctx: nat)
      requires Valid() && n < ALARM_COUNT
      modifies this`alarms
      ensures Valid()
      ensures alarms == old(alarms)[n := old(alarms[n]).(timestamp := NO_ALARM)]
      ensures callback == old(alarms[n].callback) && ctx == old(alarms[n].ctx)
    {
      alarms := alarms[n := alarms[n].(timestamp := NO_ALARM)];
      callback, ctx := alarms[n].callback, alarms[n].ctx;
    }

    /**
     * `on_interrupt` with status flags `uif` (overflow), `half` (compare 0,
     * the half-overflow) and `ccif` (compare of each alarm): a period on
     * overflow, and on half-overflow too when the copy counts it (each one
     * wrapping as in `NextPeriod`); then every
     * alarm whose flag is set and whose interrupt was enabled when the
     * interrupt began fires, in slot order.  The callbacks to call are
     * returned in that order.
     */
    method OnInterrupt(uif: bool, half: bool, ccif: seq<bool>) returns (fired: seq<nat>)
      requires Valid() && |ccif| == ALARM_COUNT
      modifies this`period, this`alarmIe, this`alarms
      ensures Valid()
      ensures period == (old(period) + (if uif then 1 else 0) + (if halfOverflow && half then 1 else 0)) % (U32_MAX + 1)
      ensures forall k :: k in fired <==> 0 <= k < ALARM_COUNT && ccif[k] && old(alarmIe[k])
      ensures forall i, j :: 0 <= i < j < |fired| ==> fired[i] < fired[j]
      ensures forall k :: 0 <= k < ALARM_COUNT ==>
                alarms[k] == if k in fired then old(alarms[k]).(timestamp := NO_ALARM) else old(alarms[k])
    {
      ghost var alarms0 := alarms;
      var ie := alarmIe;
      if uif {
        NextPeriod();
      }
      if halfOverflow && half {
        ghost var p1 := period;
        NextPeriod();
        if uif {
          assert p1 == (old(period) + 1) % (U32_MAX + 1);
          assert period == (old(period) + 2) % (U32_MAX + 1) by {
            if old(period) < U32_MAX {
              assert p1 == old(period) + 1;
            } else {
              assert p1 == 0;
            }
          }
        }
      }
      ghost var p2 := period;
      fired := [];
      for n := 0 to ALARM_COUNT
        invariant Valid() && period == p2
        invariant forall k :: k in fired <==> 0 <= k < n && ccif[k] && ie[k]
        invariant forall i, j :: 0 <= i < j < |fired| ==> fired[i] < fired[j]
        invariant forall k :: 0 <= k < |fired| ==> fired[k] < n
        invariant forall k :: 0 <= k < ALARM_COUNT ==>
                    alarms[k] == if k in fired then alarms0[k].(timestamp := NO_ALARM) else alarms0[k]
      {
        if ccif[n] && ie[n] {
          var f, c := TriggerAlarm(n);
          fired := fired + [n];
        }
      }
    }
  }
}

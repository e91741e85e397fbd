/**
 * Points in time, in ticks since boot (`os_time/instant.rs`).  Reading the
 * clock (`Instant::now`) is a call into the timer driver, so wherever the source
 * reads it the model takes the current tick count as a parameter.
 */
module Instant {
  import opened Config
  import opened Wrappers
  import Duration

  datatype Instant = Instant(ticks: u64)

  /** `Instant::MIN` and `Instant::MAX`. */
  const MIN: Instant := Instant(0)
  const MAX: Instant := Instant(U64_MAX)

  /** The derived ordering compares the tick counts. */
  predicate Le(a: Instant, b: Instant)
  {
    a.ticks <= b.ticks
  }

  /** MIN and MAX are the least and the greatest instants. */
  lemma Bounds(i: Instant)
    ensures Le(MIN, i) && Le(i, MAX)
    ensures MIN.ticks == 0 && MAX.ticks == U64_MAX
  {
  }

  /** `as_ticks`. */
  function AsTicks(i: Instant): (t: u64)
    ensures Instant(t) == i
  {
    i.ticks
  }

  /** `checked_add`: None exactly when the tick sum overflows u64. */
  function CheckedAdd(i: Instant, d: Duration.Duration): (r: Option<Instant>)
    ensures r.None? <==> i.ticks + d.ticks > U64_MAX
    ensures r.Some? ==> r.value.ticks == i.ticks + d.ticks && Le(i, r.value)
  {
    if i.ticks + d.ticks > U64_MAX then None else Some(Instant(i.ticks + d.ticks))
  }

  /** `Instant + Duration`: panics on overflow. */
  function Add(i: Instant, d: Duration.Duration): (r: Outcome<Instant>)
    ensures r.Panic? <==> i.ticks + d.ticks > U64_MAX
    ensures r.Done? ==> AsTicks(r.value) == i.ticks + d.ticks
  {
    match CheckedAdd(i, d)
    case Some(j) => Done(j)
    case None => Panic("overflow when adding duration to instant")
  }

  /** Adding durations one after the other equals adding their sum. */
  lemma AddAssociates(i: Instant, a: Duration.Duration, b: Duration.Duration)
    requires Duration.CheckedAdd(a, b).Some?
    ensures CheckedAdd(i, Duration.CheckedAdd(a, b).value) ==
      (match CheckedAdd(i, a)
       case None => None
       case Some(j) => CheckedAdd(j, b))
  {
  }
}

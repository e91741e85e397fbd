/**
 * Time services (`os_time/mod.rs` of the newer executor and of the older
 * crate): delaying the running task by a number of ticks (`delay_tick`,
 * `OSTimeDly`, `OSTimeDlyHMSM`) and resuming a delayed task
 * (`OSTimeDlyResume`).  The clock is read as the parameter `now`, the same
 * reading for every `now()` of one call, and the tick rate `TICK_HZ` as `hz`.
 * The context switch that ends a delay (`interrupt_poll`) is returned as the
 * decision `switch`.
 */
module OsTime {
  import opened Wrappers
  import opened Config
  import opened ReadyList
  import opened Task
  import opened Executor
  import opened OsCore
  import opened OsTask
  import TQ = TimerQueue
  import TD = TimeDriver
  import Arith

  /** Every expiry and `set_time` fit in a u64, as the source's fields do. */
  ghost predicate TimesFit(q: TQ.TimerQueue)
    reads q
  {
    q.setTime <= U64_MAX && forall k :: 0 <= k < |q.expires| ==> q.expires[k] <= U64_MAX
  }

  /** Every task of `items0` due after `now` is still queued, with its expiry `e0`. */
  ghost predicate LaterStay(q: TQ.TimerQueue, items0: seq<nat>, e0: seq<nat>, now: nat)
    reads q
  {
    forall p :: p in items0 && p < |e0| && e0[p] > now ==> p in q.items && p < |q.expires| && q.expires[p] == e0[p]
  }

  /**
   * The alarm follows the timer queue: `set_time` is the earliest expiry in
   * the queue (u64::MAX when it is empty), the executor's alarm slot holds
   * exactly that timestamp, and it is not already due at `now`.
   */
  ghost predicate AlarmTracksQueue(ex: SyncExecutor, drv: TD.RtcDriver, now: nat)
    reads ex, ex.queue, drv
    requires ex.queue.Linked() && drv.Valid() && ex.alarm < TD.ALARM_COUNT
  {
    var q := ex.queue;
    q.setTime == (if q.items == [] then TQ.NEVER else q.expires[q.items[0]]) &&
    drv.alarms[ex.alarm].timestamp == q.setTime &&
    (q.setTime == TQ.NEVER || q.setTime > now)
  }

  /**
   * The priorities of the queued tasks due at `now`: the tasks
   * `dequeue_expired(now)` makes ready.
   */
  ghost function DuePrios(tcbs: seq<Tcb>, items: seq<nat>, expires: seq<nat>, now: nat): set<nat>
    requires TQ.Slots(items, |expires|) && |expires| == |tcbs|
  {
    set q | q in items && expires[q] <= now :: tcbs[q].prio
  }

  /** On a sorted queue the tasks due at `now` are the front that `dequeue_expired` takes. */
  lemma DueFront(tcbs: seq<Tcb>, items: seq<nat>, expires: seq<nat>, now: nat, woken: seq<nat>)
    requires TQ.Slots(items, |expires|) && |expires| == |tcbs| && TQ.Sorted(TQ.KeysOf(items, expires))
    requires woken == items[..TQ.FrontAtMost(TQ.KeysOf(items, expires), now)]
    ensures (set k | 0 <= k < |woken| :: tcbs[woken[k]].prio) == DuePrios(tcbs, items, expires, now)
  {
    var keys := TQ.KeysOf(items, expires);
    TQ.FrontAtMostSorted(keys, now);
    var n := TQ.FrontAtMost(keys, now);
    forall k | 0 <= k < |items| ensures k < n <==> expires[items[k]] <= now {
      assert keys[k] == expires[items[k]];
    }
    forall x | x in DuePrios(tcbs, items, expires, now) ensures exists k :: 0 <= k < |woken| && x == tcbs[woken[k]].prio {
      var q :| q in items && expires[q] <= now && x == tcbs[q].prio;
      var k :| 0 <= k < |items| && items[k] == q;
      assert woken[k] == q;
    }
  }

  /** When the earliest expiry of a sorted queue is later than `now`, nothing is due. */
  lemma NoneDue(tcbs: seq<Tcb>, items: seq<nat>, expires: seq<nat>, now: nat)
    requires TQ.Slots(items, |expires|) && |expires| == |tcbs| && TQ.Sorted(TQ.KeysOf(items, expires))
    requires items == [] || expires[items[0]] > now
    ensures DuePrios(tcbs, items, expires, now) == {}
  {
    var keys := TQ.KeysOf(items, expires);
    forall k | 0 <= k < |items| ensures expires[items[k]] > now {
      assert keys[0] <= keys[k];
    }
  }

  /** Linking slot `i` with expiry `t` into the queue adds its priority to the due ones exactly when `t <= now`. */
  lemma DueInsert(tcbs: seq<Tcb>, items: seq<nat>, expires: seq<nat>, k: nat, i: nat, t: nat, now: nat)
    requires TQ.Slots(items, |expires|) && |expires| == |tcbs| && k <= |items| && i < |expires| && i !in items
    ensures TQ.Slots(items[..k] + [i] + items[k..], |expires|)
    ensures DuePrios(tcbs, items[..k] + [i] + items[k..], expires[i := t], now) ==
            DuePrios(tcbs, items, expires, now) + (if t <= now then {tcbs[i].prio} else {})
  {
    assert items == items[..k] + items[k..];
    forall q ensures q in items[..k] + [i] + items[k..] <==> q in items || q == i { }
  }

  /**
   * After `Suspend` queues slot `i` at `now + ticks` (or, at u64::MAX, only
   * records the expiry), the tasks due at `now` are those due before, and
   * slot `i` too when the delay is zero.
   */
  lemma DueSuspended(tcbs: seq<Tcb>, items0: seq<nat>, expires0: seq<nat>, items1: seq<nat>, expires1: seq<nat>,
                     k: nat, i: nat, now: nat, ticks: nat)
    requires TQ.Slots(items0, |expires0|) && |expires0| == |tcbs| && k <= |items0| && i < |expires0| && i !in items0
    requires now + ticks <= TQ.NEVER && expires1 == expires0[i := now + ticks]
    requires now + ticks == TQ.NEVER ==> items1 == items0
    requires now + ticks != TQ.NEVER ==> items1 == items0[..k] + [i] + items0[k..]
    ensures TQ.Slots(items1, |expires1|)
    ensures DuePrios(tcbs, items1, expires1, now) ==
            DuePrios(tcbs, items0, expires0, now) + (if ticks == 0 && now < TQ.NEVER then {tcbs[i].prio} else {})
  {
    if now + ticks != TQ.NEVER {
      DueInsert(tcbs, items0, expires0, k, i, now + ticks, now);
    } else {
      DueOutside(tcbs, items0, expires0, i, now + ticks, now);
    }
  }

  /** Changing the expiry of a slot that is not queued changes nothing that is due. */
  lemma DueOutside(tcbs: seq<Tcb>, items: seq<nat>, expires: seq<nat>, i: nat, t: nat, now: nat)
    requires TQ.Slots(items, |expires|) && |expires| == |tcbs| && i < |expires| && i !in items
    ensures DuePrios(tcbs, items, expires[i := t], now) == DuePrios(tcbs, items, expires, now)
  {
  }

  /**
   * The first critical section of `delay_tick`: the running task's
   * `expires_at` becomes `now + ticks`, its priority stops being ready, and
   * `update` links it into the timer queue in expiry order, returning the
   * queue's earliest expiry.  A task delayed to u64::MAX is not linked and
   * the result is u64::MAX.  The running task must not be linked already.
   */
  method Suspend(ex: SyncExecutor, now: nat, ticks: nat) returns (next: nat)
    requires ex.Valid() && ex.tcbCur.Slot? && ex.tcbCur.i < |ex.tcbs| && ex.tcbCur.i !in ex.queue.items
    requires now + ticks <= U64_MAX && TimesFit(ex.queue)
    modifies ex`rdyGrp, ex.rdyTbl
    modifies ex.queue`expires, ex.queue`head, ex.queue`items, ex.queue`next, ex.queue`prev
    ensures ex.Valid() && TimesFit(ex.queue)
    ensures ex.queue.expires == old(ex.queue.expires)[ex.tcbCur.i := now + ticks]
    ensures ReadySet(ex.rdyTbl[..]) == old(ReadySet(ex.rdyTbl[..])) - {ex.tcbs[ex.tcbCur.i].prio}
    ensures now + ticks == TQ.NEVER ==> next == TQ.NEVER && ex.queue.items == old(ex.queue.items)
    ensures now + ticks != TQ.NEVER ==>
              var k := TQ.FrontAtMost(old(ex.queue.Keys()), now + ticks);
              ex.queue.items == old(ex.queue.items)[..k] + [ex.tcbCur.i] + old(ex.queue.items)[k..]
    ensures now + ticks != TQ.NEVER ==>
              ex.tcbCur.i in ex.queue.items && next == ex.queue.expires[ex.queue.items[0]] && next <= now + ticks &&
              (forall k :: 0 <= k < |ex.queue.items| ==> next <= ex.queue.expires[ex.queue.items[k]])
  {
    var i := ex.tcbCur.i;
    TQ.KeysOutside(ex.queue.items, ex.queue.expires, i, now + ticks);
    ex.queue.SetExpires(i, now + ticks);
    assert ex.queue.Valid();
    ex.SetTaskUnready(ex.tcbCur);
    next := ex.queue.Update(i);
    if now + ticks != TQ.NEVER {
      assert i in ex.queue.items;
    }
  }

  /**
   * The queue half of `dequeue_expired(now, ...)`: the tasks due at `now`
   * leave the timer queue, in expiry order, and everything left is due later.
   */
  method DequeueDue(q: TQ.TimerQueue, tcbs: seq<Tcb>, now: nat) returns (woken: seq<nat>)
    requires q.Valid() && TimesFit(q) && |q.expires| == |tcbs|
    modifies q`expires, q`head, q`items, q`next, q`prev
    ensures q.Valid() && TimesFit(q) && |q.expires| == |tcbs|
    ensures forall k :: 0 <= k < |woken| ==> woken[k] < |tcbs|
    ensures (set k | 0 <= k < |woken| :: tcbs[woken[k]].prio) == DuePrios(tcbs, old(q.items), old(q.expires), now)
    ensures forall k :: 0 <= k < |q.items| ==> q.expires[q.items[k]] > now
    ensures LaterStay(q, old(q.items), old(q.expires), now)
  {
    ghost var items0, expires0 := q.items, q.expires;
    woken := q.DequeueExpired(now);
    DequeuedDue(tcbs, items0, expires0, q.items, q.expires, woken, now);
  }

  /** What `DequeueDue` concludes from `dequeue_expired`'s contract, stated on values. */
  lemma DequeuedDue(tcbs: seq<Tcb>, items0: seq<nat>, expires0: seq<nat>, items1: seq<nat>, expires1: seq<nat>,
                    woken: seq<nat>, now: nat)
    requires TQ.Slots(items0, |expires0|) && |expires0| == |tcbs| && TQ.Sorted(TQ.KeysOf(items0, expires0))
    requires woken == items0[..TQ.FrontAtMost(TQ.KeysOf(items0, expires0), now)]
    requires |expires1| == |expires0|
    requires forall q :: 0 <= q < |expires1| ==> expires1[q] == expires0[q] || expires1[q] == TQ.NEVER
    requires forall q :: 0 <= q < |expires0| ==> expires0[q] <= U64_MAX
    requires forall p :: p in items0 ==>
               if expires0[p] <= now then p !in items1 && expires1[p] == TQ.NEVER
               else p in items1 && expires1[p] == expires0[p]
    ensures forall k :: 0 <= k < |woken| ==> woken[k] < |tcbs|
    ensures (set k | 0 <= k < |woken| :: tcbs[woken[k]].prio) == DuePrios(tcbs, items0, expires0, now)
    ensures forall q :: 0 <= q < |expires1| ==> expires1[q] <= U64_MAX
    ensures forall p :: p in items0 && p < |expires0| && expires0[p] > now ==>
              p in items1 && p < |expires1| && expires1[p] == expires0[p]
  {
    assert forall k :: 0 <= k < |woken| ==> woken[k] == items0[k];
    DueFront(tcbs, items0, expires0, now, woken);
  }


  /**
   * `dequeue_expired(now, wake_task_no_pend)`: the tasks due at `now` leave
   * the timer queue and become ready; everything left in it is due later.
   */
  method Expire(ex: SyncExecutor, now: nat)
    requires ex.Valid() && TimesFit(ex.queue)
    modifies ex`rdyGrp, ex.rdyTbl, ex.prioTbl
    modifies ex.queue`expires, ex.queue`head, ex.queue`items, ex.queue`next, ex.queue`prev
    ensures ex.Valid() && TimesFit(ex.queue)
    ensures ReadySet(ex.rdyTbl[..]) ==
              old(ReadySet(ex.rdyTbl[..])) + DuePrios(ex.tcbs, old(ex.queue.items), old(ex.queue.expires), now)
    ensures forall k :: 0 <= k < |ex.queue.items| ==> ex.queue.expires[ex.queue.items[k]] > now
    ensures LaterStay(ex.queue, old(ex.queue.items), old(ex.queue.expires), now)
  {
    var woken := DequeueDue(ex.queue, ex.tcbs, now);
    ex.WakeAll(woken);
  }

  /**
   * One pass of the retry loop of `delay_tick`, after `set_alarm` reported
   * the time already passed: `Expire`, take the new earliest expiry as
   * `set_time`, and set the alarm to it.  Nothing left in the queue is due,
   * so this `set_alarm` succeeds and the alarm follows the queue.
   */
  method Rearm(ex: SyncExecutor, drv: TD.RtcDriver, now: nat) returns (ok: bool)
    requires ex.Valid() && drv.Valid() && ex.alarm < TD.ALARM_COUNT && TimesFit(ex.queue)
    modifies ex`rdyGrp, ex.rdyTbl, ex.prioTbl
    modifies ex.queue`expires, ex.queue`head, ex.queue`items, ex.queue`next, ex.queue`prev, ex.queue`setTime
    modifies drv`alarms, drv`alarmIe, drv`ccr
    ensures ex.Valid() && drv.Valid() && TimesFit(ex.queue)
    ensures ReadySet(ex.rdyTbl[..]) ==
              old(ReadySet(ex.rdyTbl[..])) + DuePrios(ex.tcbs, old(ex.queue.items), old(ex.queue.expires), now)
    ensures ok && AlarmTracksQueue(ex, drv, now)
    ensures LaterStay(ex.queue, old(ex.queue.items), old(ex.queue.expires), now)
  {
    Expire(ex, now);
    var at := ex.queue.NextExpiration();
    ex.queue.setTime := at;
    ok := drv.SetAlarm(TD.AlarmHandle(ex.alarm), at, now, now);
  }

  /**
   * The rest of `delay_tick`'s timer handling: when the queue's earliest
   * expiry `next` is earlier than `set_time`, `set_time` becomes `next` and
   * the alarm is set to it, and while `set_alarm` reports the time already
   * passed the loop `Rearm`s.  Afterwards the alarm follows the queue.  With
   * the clock fixed at `now` the loop body runs at most once.
   */
  method ArmAlarm(ex: SyncExecutor, drv: TD.RtcDriver, now: nat, next: nat)
    requires ex.Valid() && drv.Valid() && ex.alarm < TD.ALARM_COUNT && TimesFit(ex.queue)
    requires next == TQ.NEVER || (ex.queue.items != [] && next == ex.queue.expires[ex.queue.items[0]])
    modifies ex`rdyGrp, ex.rdyTbl, ex.prioTbl
    modifies ex.queue`expires, ex.queue`head, ex.queue`items, ex.queue`next, ex.queue`prev, ex.queue`setTime
    modifies drv`alarms, drv`alarmIe, drv`ccr
    ensures ex.Valid() && drv.Valid() && TimesFit(ex.queue)
    ensures next >= old(ex.queue.setTime) ==>
              ex.queue.setTime == old(ex.queue.setTime) && ex.queue.items == old(ex.queue.items) &&
              ex.queue.expires == old(ex.queue.expires) && drv.alarms == old(drv.alarms) &&
              ex.rdyTbl[..] == old(ex.rdyTbl[..])
    ensures next < old(ex.queue.setTime) ==>
              AlarmTracksQueue(ex, drv, now) &&
              ReadySet(ex.rdyTbl[..]) ==
                old(ReadySet(ex.rdyTbl[..])) + DuePrios(ex.tcbs, old(ex.queue.items), old(ex.queue.expires), now)
    ensures LaterStay(ex.queue, old(ex.queue.items), old(ex.queue.expires), now)
  {
    if next >= ex.queue.setTime {
      return;
    }
    ghost var items0, expires0, rows0 := ex.queue.items, ex.queue.expires, ex.rdyTbl[..];
    ghost var due := DuePrios(ex.tcbs, items0, expires0, now);
    ex.queue.setTime := next;
    var ok := drv.SetAlarm(TD.AlarmHandle(ex.alarm), next, now, now);
    if ok {
      NoneDue(ex.tcbs, items0, expires0, now);
    }
    ghost var retried := false;
    while !ok
      invariant ex.Valid() && drv.Valid() && TimesFit(ex.queue)
      invariant ok ==> AlarmTracksQueue(ex, drv, now)
      invariant LaterStay(ex.queue, items0, expires0, now)
      invariant !retried ==> ex.queue.items == items0 && ex.queue.expires == expires0 && ex.rdyTbl[..] == rows0
      invariant retried ==> ok && ReadySet(ex.rdyTbl[..]) == ReadySet(rows0) + due
      invariant ok && !retried ==> due == {}
      decreases if retried then 0 else 1
    {
      ok := Rearm(ex, drv, now);
      assert LaterStay(ex.queue, items0, expires0, now);
      retried := true;
    }
  }

  /**
   * The ready set after a delay of the task of priority p, from `ready0`
   * before it: p left it, and either nothing else changed or the priorities
   * `due` joined it; when `all` holds they did.
   */
  ghost predicate DelayReady(ready: set<nat>, ready0: set<nat>, p: nat, due: set<nat>, all: bool)
  {
    (ready == ready0 - {p} || ready == ready0 - {p} + due) &&
    (all ==> ready == ready0 - {p} + due) &&
    (p !in due ==> p !in ready)
  }

  /**
   * The two steps of `delay_tick` compose to `DelayReady`: `Suspend` takes p
   * out, and the alarm loop, when it runs (`armed`), adds what is due.
   */
  lemma DelayReadyStep(ready0: set<nat>, ready1: set<nat>, ready2: set<nat>, p: nat, due: set<nat>, all: bool, armed: bool)
    requires ready1 == ready0 - {p}
    requires !armed ==> ready2 == ready1
    requires armed ==> ready2 == ready1 + due
    requires all ==> armed || due == {}
    ensures DelayReady(ready2, ready0, p, due, all)
  {
  }

  /**
   * What `delay_tick(ticks)` leaves behind at `now`, for the running task of
   * priority p.  The executor and the driver stay valid; the alarm is left
   * alone or follows the queue; the task waits in the queue until `now +
   * ticks` unless the delay is zero or never ends.  p stops being ready, and
   * the only priorities that become ready are those due at `now`: the queued
   * tasks due then, and p itself after a zero delay.  They all do when the
   * old `set_time` was later than `now` and the task was queued.
   */
  twostate predicate Delayed(ex: SyncExecutor, drv: TD.RtcDriver, now: nat, ticks: nat)
    reads ex, ex.prioTbl, ex.rdyTbl, ex.queue, drv
    requires old(ex.Valid()) && ex.tcbs == old(ex.tcbs) && ex.tcbCur.Slot? && ex.tcbCur.i < |ex.tcbs|
  {
    var p := ex.tcbs[ex.tcbCur.i].prio;
    var due := DuePrios(ex.tcbs, old(ex.queue.items), old(ex.queue.expires), now) +
               (if ticks == 0 && now < TQ.NEVER then {p} else {});
    ex.Valid() && drv.Valid() && TimesFit(ex.queue) && ex.alarm < TD.ALARM_COUNT &&
    (ex.queue.setTime == old(ex.queue.setTime) || AlarmTracksQueue(ex, drv, now)) &&
    (0 < ticks && now + ticks < TQ.NEVER ==>
       ex.tcbCur.i in ex.queue.items && ex.queue.expires[ex.tcbCur.i] == now + ticks) &&
    DelayReady(ReadySet(ex.rdyTbl[..]), old(ReadySet(ex.rdyTbl[..])), p, due,
               old(ex.queue.setTime) > now && now + ticks < TQ.NEVER)
  }

  /**
   * `delay_tick(ticks)`: suspend the running task until `now + ticks`, keep
   * the alarm following the timer queue, then recompute the high-ready task;
   * a context switch is requested exactly when it differs from the running
   * priority.
   */
  method DelayTick(ex: SyncExecutor, drv: TD.RtcDriver, now: nat, ticks: nat) returns (switch: bool)
    requires ex.Valid() && drv.Valid() && ex.alarm < TD.ALARM_COUNT
    requires ex.tcbCur.Slot? && ex.tcbCur.i < |ex.tcbs| && ex.tcbCur.i !in ex.queue.items
    requires now + ticks <= U64_MAX && TimesFit(ex.queue)
    modifies ex`rdyGrp, ex.rdyTbl, ex.prioTbl, ex`prioHighRdy, ex`tcbHighRdy
    modifies ex.queue`expires, ex.queue`head, ex.queue`items, ex.queue`next, ex.queue`prev, ex.queue`setTime
    modifies drv`alarms, drv`alarmIe, drv`ccr
    ensures Delayed(ex, drv, now, ticks)
    ensures ex.prioHighRdy == HighestReadyPrio(ex.rdyGrp, ex.rdyTbl[..]) && ex.tcbHighRdy == ex.prioTbl[ex.prioHighRdy]
    ensures switch <==> ex.prioHighRdy != ex.prioCur
  {
    SuspendAndArm(ex, drv, now, ticks);
    ex.SetHighRdy();
    switch := ex.prioHighRdy != ex.prioCur;
  }

  /**
   * `Suspend`, seen from the alarm loop: the tasks due at `now` are those due
   * before, and the running task too when its delay is zero.
   */
  method SuspendDue(ex: SyncExecutor, now: nat, ticks: nat) returns (next: nat)
    requires ex.Valid() && ex.tcbCur.Slot? && ex.tcbCur.i < |ex.tcbs| && ex.tcbCur.i !in ex.queue.items
    requires now + ticks <= U64_MAX && TimesFit(ex.queue)
    modifies ex`rdyGrp, ex.rdyTbl
    modifies ex.queue`expires, ex.queue`head, ex.queue`items, ex.queue`next, ex.queue`prev
    ensures ex.Valid() && TimesFit(ex.queue)
    ensures ReadySet(ex.rdyTbl[..]) == old(ReadySet(ex.rdyTbl[..])) - {ex.tcbs[ex.tcbCur.i].prio}
    ensures DuePrios(ex.tcbs, ex.queue.items, ex.queue.expires, now) ==
              old(DuePrios(ex.tcbs, ex.queue.items, ex.queue.expires, now)) +
              (if ticks == 0 && now < TQ.NEVER then {ex.tcbs[ex.tcbCur.i].prio} else {})
    ensures now + ticks == TQ.NEVER ==> next == TQ.NEVER
    ensures now + ticks != TQ.NEVER ==>
              ex.tcbCur.i in ex.queue.items && next == ex.queue.expires[ex.queue.items[0]] && next <= now + ticks
    ensures ex.queue.expires[ex.tcbCur.i] == now + ticks
  {
    var i := ex.tcbCur.i;
    ghost var items0, expires0 := ex.queue.items, ex.queue.expires;
    ghost var k := TQ.FrontAtMost(ex.queue.Keys(), now + ticks);
    next := Suspend(ex, now, ticks);
    DueSuspended(ex.tcbs, items0, expires0, ex.queue.items, ex.queue.expires, k, i, now, ticks);
  }

  /** The part of `delay_tick` before the reschedule: the task waits and the alarm is armed. */
  method SuspendAndArm(ex: SyncExecutor, drv: TD.RtcDriver, now: nat, ticks: nat)
    requires ex.Valid() && drv.Valid() && ex.alarm < TD.ALARM_COUNT
    requires ex.tcbCur.Slot? && ex.tcbCur.i < |ex.tcbs| && ex.tcbCur.i !in ex.queue.items
    requires now + ticks <= U64_MAX && TimesFit(ex.queue)
    modifies ex`rdyGrp, ex.rdyTbl, ex.prioTbl
    modifies ex.queue`expires, ex.queue`head, ex.queue`items, ex.queue`next, ex.queue`prev, ex.queue`setTime
    modifies drv`alarms, drv`alarmIe, drv`ccr
    ensures ex.Valid() && drv.Valid() && TimesFit(ex.queue)
    ensures ex.queue.setTime == old(ex.queue.setTime) || AlarmTracksQueue(ex, drv, now)
    ensures 0 < ticks && now + ticks < TQ.NEVER ==>
              ex.tcbCur.i in ex.queue.items && ex.queue.expires[ex.tcbCur.i] == now + ticks
    ensures DelayReady(ReadySet(ex.rdyTbl[..]), old(ReadySet(ex.rdyTbl[..])), ex.tcbs[ex.tcbCur.i].prio,
                       old(DuePrios(ex.tcbs, ex.queue.items, ex.queue.expires, now)) +
                       (if ticks == 0 && now < TQ.NEVER then {ex.tcbs[ex.tcbCur.i].prio} else {}),
                       old(ex.queue.setTime) > now && now + ticks < TQ.NEVER)
  {
    ghost var p, ready0 := ex.tcbs[ex.tcbCur.i].prio, ReadySet(ex.rdyTbl[..]);
    var next := SuspendDue(ex, now, ticks);
    ghost var items1, expires1 := ex.queue.items, ex.queue.expires;
    ghost var all := ex.queue.setTime > now && now + ticks < TQ.NEVER;
    ArmDelayed(ex, drv, now, next, p, ready0, DuePrios(ex.tcbs, items1, expires1, now), all);
    if 0 < ticks && now + ticks < TQ.NEVER {
      assert LaterStay(ex.queue, items1, expires1, now);
    }
  }

  /**
   * The alarm step of `delay_tick` after the task left the ready set: the
   * ready set ends as `DelayReady` says, with `due` the tasks due by now.
   */
  method ArmDelayed(ex: SyncExecutor, drv: TD.RtcDriver, now: nat, next: nat,
                    ghost p: nat, ghost ready0: set<nat>, ghost due: set<nat>, ghost all: bool)
    requires ex.Valid() && drv.Valid() && ex.alarm < TD.ALARM_COUNT && TimesFit(ex.queue)
    requires next == TQ.NEVER || (ex.queue.items != [] && next == ex.queue.expires[ex.queue.items[0]])
    requires ReadySet(ex.rdyTbl[..]) == ready0 - {p}
    requires due == DuePrios(ex.tcbs, ex.queue.items, ex.queue.expires, now)
    requires all ==> ex.queue.setTime > now && ex.queue.items != [] && next == ex.queue.expires[ex.queue.items[0]]
    modifies ex`rdyGrp, ex.rdyTbl, ex.prioTbl
    modifies ex.queue`expires, ex.queue`head, ex.queue`items, ex.queue`next, ex.queue`prev, ex.queue`setTime
    modifies drv`alarms, drv`alarmIe, drv`ccr
    ensures ex.Valid() && drv.Valid() && TimesFit(ex.queue)
    ensures ex.queue.setTime == old(ex.queue.setTime) || AlarmTracksQueue(ex, drv, now)
    ensures LaterStay(ex.queue, old(ex.queue.items), old(ex.queue.expires), now)
    ensures DelayReady(ReadySet(ex.rdyTbl[..]), ready0, p, due, all)
  {
    ghost var items1, expires1, ready1, setTime1 := ex.queue.items, ex.queue.expires, ReadySet(ex.rdyTbl[..]), ex.queue.setTime;
    ArmAlarm(ex, drv, now, next);
    if all && next >= setTime1 {
      NoneDue(ex.tcbs, items1, expires1, now);
    }
    DelayReadyStep(ready0, ready1, ReadySet(ex.rdyTbl[..]), p, due, all, next < setTime1);
  }


  /** What `delay_tick` needs: a running task, not in the timer queue, and a due time that fits. */
  ghost predicate CanDelay(ex: SyncExecutor, drv: TD.RtcDriver, now: nat, ticks: nat)
    reads ex, ex.prioTbl, ex.rdyTbl, ex.queue, drv
  {
    ex.Valid() && drv.Valid() && ex.alarm < TD.ALARM_COUNT &&
    ex.tcbCur.Slot? && ex.tcbCur.i < |ex.tcbs| && ex.tcbCur.i !in ex.queue.items &&
    now + ticks <= U64_MAX && TimesFit(ex.queue)
  }

  /**
   * `OSTimeDly(ticks)`: in the newer kernel it does nothing inside an
   * interrupt or with the scheduler locked; otherwise, and always in the
   * older crate (`legacy`), it is `delay_tick(ticks)`.
   */
  method TimeDly(ex: SyncExecutor, drv: TD.RtcDriver, g: OsGlobals, now: nat, ticks: nat, legacy: bool)
    returns (switch: bool)
    requires legacy || (g.intNesting == 0 && g.lockNesting == 0) ==> CanDelay(ex, drv, now, ticks)
    modifies ex`rdyGrp, ex.rdyTbl, ex.prioTbl, ex`prioHighRdy, ex`tcbHighRdy
    modifies ex.queue`expires, ex.queue`head, ex.queue`items, ex.queue`next, ex.queue`prev, ex.queue`setTime
    modifies drv`alarms, drv`alarmIe, drv`ccr
    ensures !legacy && (g.intNesting > 0 || g.lockNesting > 0) ==>
              !switch && unchanged(ex, ex.rdyTbl, ex.prioTbl, ex.queue, drv)
    ensures legacy || (g.intNesting == 0 && g.lockNesting == 0) ==>
              Delayed(ex, drv, now, ticks) &&
              ex.prioHighRdy == HighestReadyPrio(ex.rdyGrp, ex.rdyTbl[..]) &&
              (switch <==> ex.prioHighRdy != ex.prioCur)
  {
    if !legacy && (g.intNesting > 0 || g.lockNesting > 0) {
      return false;
    }
    switch := DelayTick(ex, drv, now, ticks);
  }

  /** Arguments `OSTimeDlyHMSM` accepts when it checks them: not all zero, minutes, seconds and milliseconds in range. */
  predicate HmsmValid(hours: nat, minutes: nat, seconds: nat, ms: nat)
  {
    !(hours == 0 && minutes == 0 && seconds == 0 && ms == 0) && minutes <= 59 && seconds <= 59 && ms <= 999
  }

  /**
   * The error `OSTimeDlyHMSM` returns before delaying, in the order the
   * checks run: an interrupt, the scheduler lock, then (with argument checks)
   * an all-zero delay and the ranges of minutes, seconds and milliseconds.
   */
  function HmsmError(intNesting: nat, lockNesting: nat, hours: nat, minutes: nat, seconds: nat, ms: nat, argChk: bool): (e: OsErr)
    ensures intNesting > 0 ==> e == OS_ERR_TIME_DLY_ISR
    ensures intNesting == 0 && lockNesting > 0 ==> e == OS_ERR_SCHED_LOCKED
    ensures e == OS_ERR_NONE <==> intNesting == 0 && lockNesting == 0 && (argChk ==> HmsmValid(hours, minutes, seconds, ms))
    ensures intNesting == 0 && lockNesting == 0 && argChk && hours == 0 && minutes == 0 && seconds == 0 && ms == 0 ==>
              e == OS_ERR_TIME_ZERO_DLY
    ensures e == OS_ERR_TIME_INVALID_MINUTES <==>
              intNesting == 0 && lockNesting == 0 && argChk && !(hours == 0 && minutes == 0 && seconds == 0 && ms == 0) &&
              minutes > 59
    ensures e == OS_ERR_TIME_INVALID_SECONDS ==> minutes <= 59 && seconds > 59
    ensures e == OS_ERR_TIME_INVALID_MS ==> minutes <= 59 && seconds <= 59 && ms > 999
  {
    if intNesting > 0 then OS_ERR_TIME_DLY_ISR
    else if lockNesting > 0 then OS_ERR_SCHED_LOCKED
    else if !argChk then OS_ERR_NONE
    else if hours == 0 && minutes == 0 && seconds == 0 && ms == 0 then OS_ERR_TIME_ZERO_DLY
    else if minutes > 59 then OS_ERR_TIME_INVALID_MINUTES
    else if seconds > 59 then OS_ERR_TIME_INVALID_SECONDS
    else if ms > 999 then OS_ERR_TIME_INVALID_MS
    else OS_ERR_NONE
  }

  /** The delay in milliseconds: `h * 3600000 + m * 60000 + s * 1000 + ms`. */
  function HmsmMillis(hours: nat, minutes: nat, seconds: nat, ms: nat): (t: nat)
  {
    hours * 3600000 + minutes * 60000 + seconds * 1000 + ms
  }

  /** The ticks `OSTimeDlyHMSM` delays: the millisecond total times `TICK_HZ` over 1000, rounded down. */
  function HmsmTicks(hours: nat, minutes: nat, seconds: nat, ms: nat, hz: nat): (t: nat)
    ensures t * 1000 <= HmsmMillis(hours, minutes, seconds, ms) * hz < (t + 1) * 1000
  {
    HmsmMillis(hours, minutes, seconds, ms) * hz / 1000
  }

  /**
   * In range, the millisecond total encodes the four arguments: hours,
   * minutes, seconds and milliseconds are read back by division, so distinct
   * valid arguments never give the same delay.
   */
  lemma HmsmMillisDecodes(hours: nat, minutes: nat, seconds: nat, ms: nat)
    requires minutes <= 59 && seconds <= 59 && ms <= 999
    ensures var t := HmsmMillis(hours, minutes, seconds, ms);
            t / 3600000 == hours && t % 3600000 / 60000 == minutes &&
            t % 60000 / 1000 == seconds && t % 1000 == ms
  {
    var t := HmsmMillis(hours, minutes, seconds, ms);
    var r1 := minutes * 60000 + seconds * 1000 + ms;
    var r2 := seconds * 1000 + ms;
    Arith.DivUnique(t, 3600000, hours, r1);
    assert t % 3600000 == r1;
    Arith.DivUnique(r1, 60000, minutes, r2);
    assert t == (hours * 60 + minutes) * 60000 + r2;
    Arith.DivUnique(t, 60000, hours * 60 + minutes, r2);
    assert t % 60000 == r2;
    Arith.DivUnique(r2, 1000, seconds, ms);
    assert t == ((hours * 60 + minutes) * 60 + seconds) * 1000 + ms;
    Arith.DivUnique(t, 1000, (hours * 60 + minutes) * 60 + seconds, ms);
  }

  /**
   * `OSTimeDlyHMSM(hours, minutes, seconds, ms)`: the error of `HmsmError`,
   * or `OS_ERR_NONE` after `delay_tick` of `HmsmMillis * TICK_HZ / 1000`
   * ticks, rounded down.  The u64 arithmetic must not overflow.
   */
  method TimeDlyHMSM(ex: SyncExecutor, drv: TD.RtcDriver, g: OsGlobals, now: nat, hz: nat,
                     hours: u8, minutes: u8, seconds: u8, ms: u64, argChk: bool)
    returns (err: OsErr, switch: bool)
    requires HmsmError(g.intNesting, g.lockNesting, hours, minutes, seconds, ms, argChk) == OS_ERR_NONE ==>
               HmsmMillis(hours, minutes, seconds, ms) * hz <= U64_MAX &&
               CanDelay(ex, drv, now, HmsmTicks(hours, minutes, seconds, ms, hz))
    modifies ex`rdyGrp, ex.rdyTbl, ex.prioTbl, ex`prioHighRdy, ex`tcbHighRdy
    modifies ex.queue`expires, ex.queue`head, ex.queue`items, ex.queue`next, ex.queue`prev, ex.queue`setTime
    modifies drv`alarms, drv`alarmIe, drv`ccr
    ensures err == HmsmError(g.intNesting, g.lockNesting, hours, minutes, seconds, ms, argChk)
    ensures err != OS_ERR_NONE ==> !switch && unchanged(ex, ex.rdyTbl, ex.prioTbl, ex.queue, drv)
    ensures err == OS_ERR_NONE ==>
              Delayed(ex, drv, now, HmsmTicks(hours, minutes, seconds, ms, hz)) &&
              ex.prioHighRdy == HighestReadyPrio(ex.rdyGrp, ex.rdyTbl[..]) &&
              (switch <==> ex.prioHighRdy != ex.prioCur)
  {
    err := HmsmError(g.intNesting, g.lockNesting, hours, minutes, seconds, ms, argChk);
    if err != OS_ERR_NONE {
      return err, false;
    }
    var ticks := (hours as nat * 3600000 + minutes as nat * 60000 + seconds as nat * 1000 + ms) * hz / 1000;
    switch := DelayTick(ex, drv, now, ticks);
  }

  /**
   * The critical section of `OSTimeDlyResume(prio)`: `OS_ERR_TASK_NOT_EXIST`
   * when no task has the priority, `OS_ERR_TIME_NOT_DLY` when its
   * `expires_at` is u64::MAX or already before `now`, and otherwise the task
   * gets `expires_at` u64::MAX, leaves the timer queue (the other delayed
   * tasks stay queued in order) and becomes ready.
   */
  method ResumeSection(ex: SyncExecutor, now: nat, prio: nat) returns (err: OsErr)
    requires ex.Valid() && NoReservation(ex) && prio < OS_LOWEST_PRIO
    modifies ex`rdyGrp, ex.rdyTbl, ex.prioTbl
    modifies ex.queue`expires, ex.queue`head, ex.queue`items, ex.queue`next, ex.queue`prev
    ensures ex.Valid() && NoReservation(ex) && ex.prioTbl[..] == old(ex.prioTbl[..])
    ensures err == OS_ERR_TASK_NOT_EXIST <==> ex.prioTbl[prio] == Null
    ensures err == OS_ERR_TIME_NOT_DLY <==>
              ex.prioTbl[prio].Slot? &&
              (old(ex.queue.expires[ex.prioTbl[prio].i]) == TQ.NEVER || old(ex.queue.expires[ex.prioTbl[prio].i]) < now)
    ensures err in {OS_ERR_NONE, OS_ERR_TASK_NOT_EXIST, OS_ERR_TIME_NOT_DLY}
    ensures err != OS_ERR_NONE ==> unchanged(ex, ex.rdyTbl, ex.prioTbl, ex.queue)
    ensures err == OS_ERR_NONE ==>
              ex.prioTbl[prio].Slot? &&
              ReadySet(ex.rdyTbl[..]) == old(ReadySet(ex.rdyTbl[..])) + {prio} &&
              Unqueued(old(ex.queue.expires), old(ex.queue.items), ex.queue.expires, ex.queue.items, ex.prioTbl[prio].i)
  {
    var t := ex.prioTbl[prio];
    if t == Null {
      return OS_ERR_TASK_NOT_EXIST;
    }
    assert t != Reserved;
    var e := ex.queue.expires[t.i];
    if e == TQ.NEVER || e < now {
      return OS_ERR_TIME_NOT_DLY;
    }
    ex.Resume(prio);
    err := OS_ERR_NONE;
  }

  /**
   * `OSTimeDlyResume(prio)`: `OS_ERR_PRIO_INVALID` for a priority of
   * `OS_LOWEST_PRIO` or more, else the critical section's result; after a
   * success, `IntCtxSW` while the kernel runs.
   */
  method TimeDlyResume(ex: SyncExecutor, g: OsGlobals, now: nat, prio: u8) returns (err: OsErr, switch: bool)
    requires ex.Valid() && NoReservation(ex)
    modifies ex`rdyGrp, ex.rdyTbl, ex.prioTbl, ex`prioHighRdy, ex`tcbHighRdy
    modifies ex.queue`expires, ex.queue`head, ex.queue`items, ex.queue`next, ex.queue`prev
    ensures ex.Valid() && NoReservation(ex)
    ensures prio >= OS_LOWEST_PRIO ==> err == OS_ERR_PRIO_INVALID
    ensures prio < OS_LOWEST_PRIO ==>
              (err == OS_ERR_TASK_NOT_EXIST <==> old(ex.prioTbl[prio]) == Null)
    ensures prio < OS_LOWEST_PRIO ==>
              (err == OS_ERR_TIME_NOT_DLY <==>
                 old(ex.prioTbl[prio]).Slot? &&
                 (old(ex.queue.expires[ex.prioTbl[prio].i]) == TQ.NEVER || old(ex.queue.expires[ex.prioTbl[prio].i]) < now))
    ensures err in {OS_ERR_NONE, OS_ERR_PRIO_INVALID, OS_ERR_TASK_NOT_EXIST, OS_ERR_TIME_NOT_DLY}
    ensures err != OS_ERR_NONE ==> !switch && unchanged(ex, ex.rdyTbl, ex.prioTbl, ex.queue)
    ensures err == OS_ERR_NONE ==>
              prio < OS_LOWEST_PRIO && old(ex.prioTbl[prio]).Slot? &&
              ReadySet(ex.rdyTbl[..]) == old(ReadySet(ex.rdyTbl[..])) + {prio} &&
              Unqueued(old(ex.queue.expires), old(ex.queue.items), ex.queue.expires, ex.queue.items, old(ex.prioTbl[prio]).i)
    ensures err == OS_ERR_NONE && g.running ==> SwitchDecided(ex, g, false, switch)
    ensures !(err == OS_ERR_NONE && g.running) ==>
              !switch && ex.prioHighRdy == old(ex.prioHighRdy) && ex.tcbHighRdy == old(ex.tcbHighRdy)
  {
    switch := false;
    if prio >= OS_LOWEST_PRIO {
      return OS_ERR_PRIO_INVALID, false;
    }
    err := ResumeSection(ex, now, prio);
    if err != OS_ERR_NONE {
      return;
    }
    if g.running {
      switch := Reschedule(ex, g, false);
    }
  }
}

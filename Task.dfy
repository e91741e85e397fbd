/**
 * The task control block (`OS_TCB` inside `OS_TASK_STORAGE`) and the reference
 * to it (`OS_TCB_REF`).  Task storage is claimed from the task arena one block
 * per task; the model numbers those blocks, so an `OS_TCB_REF` is the slot
 * number of its block and the executor keeps the TCB records by slot.  The
 * timer-queue cells of a TCB (`expires_at`, `OSTimerNext`, `OSTimerPrev`) are
 * kept by the timer queue under the same slot number.
 */
module Task {
  import opened Wrappers
  import opened Config
  import opened Bitmap
  import opened ReadyList
  import opened StackAllocator

  /**
   * `OS_TCB_REF { ptr }`: no pointer, the dangling pointer `reserve_bit`
   * stores to hold a priority, or the TCB in arena slot `i`.
   */
  datatype TcbRef = Null | Reserved | Slot(i: nat)
  {
    /** `ptr.is_some()`. */
    predicate IsSome() { !Null? }
  }

  /** `OS_TASK_REG_TBL_SIZE`. */
  const OS_TASK_REG_TBL_SIZE: nat := 1

  /**
   * The fields of `OS_TCB` that the kernel services read or write.
   * `needsStackSave` belongs to the newer TCB, `inThreadPoll` to the older one
   * (`is_in_thread_poll`); `spawned` is the spawned flag of `OSTCBStat`.
   */
  datatype Tcb = Tcb(
    prio: nat,
    x: nat,
    y: nat,
    bitX: bv8,
    bitY: bv8,
    stk: Option<StkRef>,
    spawned: bool,
    needsStackSave: bool,
    inThreadPoll: bool,
    regTbl: seq<nat>)

  /** `OS_TCB_REF::default()`: no pointer, so `prio_exist` reads it as free. */
  function DefaultRef(): (r: TcbRef)
    ensures !r.IsSome() && r != Reserved && !r.Slot?
  {
    Null
  }

  /**
   * `OS_TASK_STORAGE::new()` of the newer executor: no stack, priority 0 with
   * all priority bits 0, not spawned, `needs_stack_save` false, register table
   * zeroed.  Its `expires_at` (u64::MAX) and timer links (None) are set by the
   * timer queue's `AddSlot`.
   */
  function NewTcb(): (t: Tcb)
    ensures t.stk.None? && t.prio == 0 && t.x == 0 && t.y == 0 && t.bitX == 0 && t.bitY == 0
    ensures !t.spawned && !t.needsStackSave && !t.inThreadPoll
    ensures |t.regTbl| == OS_TASK_REG_TBL_SIZE && forall i :: 0 <= i < |t.regTbl| ==> t.regTbl[i] == 0
  {
    Tcb(0, 0, 0, 0, 0, None, false, false, false, seq(OS_TASK_REG_TBL_SIZE, _ => 0))
  }

  /** `OS_TASK_STORAGE::new()` of the older executor: the same, with `is_in_thread_poll` true. */
  function NewTcbLegacy(): (t: Tcb)
    ensures t.stk.None? && t.prio == 0 && t.x == 0 && t.y == 0 && t.bitX == 0 && t.bitY == 0
    ensures !t.spawned && !t.needsStackSave && t.inThreadPoll
    ensures |t.regTbl| == OS_TASK_REG_TBL_SIZE && forall i :: 0 <= i < |t.regTbl| ==> t.regTbl[i] == 0
  {
    NewTcb().(inThreadPoll := true)
  }

  /** The priority fields agree with the priority, as `init` and `OSTaskChangePrio` write them. */
  ghost predicate WellFormed(t: Tcb)
  {
    t.prio <= OS_LOWEST_PRIO && t.y == PrioY(t.prio) && t.x == PrioX(t.prio) &&
    t.bitY == Bit(t.y) && t.bitX == Bit(t.x)
  }

  /**
   * The priority writes of `init`: `OSTCBY = prio >> 3`, `OSTCBX = prio & 7`,
   * `OSTCBBitY = 1 << OSTCBY`, `OSTCBBitX = 1 << OSTCBX`, on the u8 priority;
   * `ShiftIsDivision` and `ShiftIsBit` show the byte operations are the
   * division, remainder and bit written here.  Every other field is kept.
   */
  function WithPrio(t: Tcb, prio: nat): (r: Tcb)
    requires prio <= OS_LOWEST_PRIO
    ensures WellFormed(r) && r.prio == prio
    ensures r.stk == t.stk && r.spawned == t.spawned && r.needsStackSave == t.needsStackSave &&
            r.inThreadPoll == t.inThreadPoll && r.regTbl == t.regTbl
  {
    var y, x := prio / 8, prio % 8;
    t.(prio := prio, y := y, x := x, bitY := Bit(y), bitX := Bit(x))
  }

  /** On a byte, `>> 3` and `& 7` are division and remainder by 8. */
  lemma ShiftIsDivision(p: bv8)
    ensures (p >> 3) as nat == p as nat / 8 && (p & 0x07) as nat == p as nat % 8
  {
  }

  /**
   * The zeroing loop of `init` over `OSTCBRegTbl`: every entry becomes 0 and
   * the length is kept.
   */
  method ZeroRegTbl(t: Tcb) returns (r: Tcb)
    ensures r == t.(regTbl := r.regTbl)
    ensures |r.regTbl| == |t.regTbl| && forall i :: 0 <= i < |r.regTbl| ==> r.regTbl[i] == 0
  {
    var tbl := t.regTbl;
    for i := 0 to |tbl|
      invariant |tbl| == |t.regTbl|
      invariant forall j :: 0 <= j < i ==> tbl[j] == 0
    {
      tbl := tbl[i := 0];
    }
    r := t.(regTbl := tbl);
  }

  /**
   * `OSTCBStat.spawn()`: succeeds, marking the task spawned, exactly when it
   * was not spawned yet.  (The state cell itself is not part of this model;
   * this is the spawn flag of Embassy's task state.)
   */
  function Spawn(t: Tcb): (r: (bool, Tcb))
    ensures r.0 <==> !t.spawned
    ensures r.1.spawned && r.1 == t.(spawned := r.1.spawned)
  {
    (!t.spawned, t.(spawned := true))
  }

  /**
   * The priority and spawn steps of `OS_TASK_STORAGE::init` on claimed
   * storage `t`: the priority decomposition, then a panic if spawning fails.
   */
  function InitStorage(t: Tcb, prio: nat): (r: Outcome<Tcb>)
    requires prio <= OS_LOWEST_PRIO
    ensures r.Panic? <==> t.spawned
    ensures r.Done? ==> WellFormed(r.value) && r.value.prio == prio && r.value.spawned
    ensures r.Done? ==> r.value.stk == t.stk && r.value.regTbl == t.regTbl &&
                        r.value.needsStackSave == t.needsStackSave && r.value.inThreadPoll == t.inThreadPoll
  {
    var s := Spawn(WithPrio(t, prio));
    if s.0 then Done(s.1) else Panic("task spawn failed")
  }

  /**
   * Storage fresh from `claim` is never spawned, so `init` on it never
   * reaches its spawn panic; a completed task can be spawned again.
   */
  lemma FreshSpawnSucceeds(prio: nat)
    requires prio <= OS_LOWEST_PRIO
    ensures InitStorage(NewTcb(), prio).Done? && InitStorage(NewTcbLegacy(), prio).Done?
    ensures forall t: Tcb :: Spawn(t).0 ==> !Spawn(Spawn(t).1).0 && Spawn(AfterPoll(Spawn(t).1, true)).0
  {
  }

  /** `take_stk`: the stack, or a panic from `unwrap` when there is none; afterwards none. */
  function TakeStk(t: Tcb): (r: (Outcome<StkRef>, Tcb))
    ensures t.stk.None? <==> r.0.Panic?
    ensures r.0.Done? ==> Some(r.0.value) == t.stk
    ensures r.1 == t.(stk := None)
  {
    match t.stk
    case None => (Panic("take_stk on a task without a stack"), t)
    case Some(s) => (Done(s), t.(stk := None))
  }

  /** `set_stk`: afterwards the task holds `s`, so `is_stk_none` is false. */
  function SetStk(t: Tcb, s: StkRef): (r: Tcb)
    ensures r.stk == Some(s) && !IsStkNone(r)
    ensures r == t.(stk := r.stk)
  {
    t.(stk := Some(s))
  }

  /** `is_stk_none`. */
  predicate IsStkNone(t: Tcb)
  {
    t.stk.None?
  }

  /** Setting a stack and taking it back gives that stack and leaves none. */
  lemma SetThenTake(t: Tcb, s: StkRef)
    ensures TakeStk(SetStk(t, s)).0 == Done(s)
    ensures IsStkNone(TakeStk(SetStk(t, s)).1)
  {
  }

  /**
   * `OS_TASK_STORAGE::poll` after the future has been polled: a completed
   * future is dropped and the task despawned; a pending one leaves the TCB as
   * it was.
   */
  function AfterPoll(t: Tcb, ready: bool): (r: Tcb)
    ensures ready ==> !r.spawned && r == t.(spawned := false)
    ensures !ready ==> r == t
  {
    if ready then t.(spawned := false) else t
  }
}

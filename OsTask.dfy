/**
 * Task services (`os_task.rs` of the newer executor and of the older crate):
 * creating a task, changing its priority and deleting it, each an error-code
 * state machine over the executor's priority table and ready bitmap, and the
 * creation of the idle task at start-up (`os_core.rs`).  `legacy` selects the
 * older crate's behaviour: no `OSTaskCtr` update on creation, older TCB
 * defaults and the older `IntCtxSW`.  The context-switch request that ends a
 * successful service while the kernel runs is the decision of `IntCtxSW`,
 * returned as `switch`.
 */
module OsTask {
  import opened Wrappers
  import opened Config
  import opened ReadyList
  import opened Task
  import opened Executor
  import opened OsCore
  import TQ = TimerQueue
  import SA = StackAllocator

  /**
   * No entry of the priority table holds the reservation of a creation in
   * progress; `init_task` places one and replaces it before it returns.
   */
  ghost predicate NoReservation(ex: SyncExecutor)
    reads ex, ex.prioTbl
  {
    forall p :: 0 <= p < ex.prioTbl.Length ==> ex.prioTbl[p] != Reserved
  }

  /**
   * The end of a successful service: `IntCtxSW` switched exactly when the
   * highest ready priority beats the current one (and, in the newer kernel,
   * no interrupt or lock is active), and then recorded that priority and its
   * task as high-ready; otherwise nothing of the high-ready state changed.
   */
  twostate predicate SwitchDecided(ex: SyncExecutor, g: OsGlobals, legacy: bool, switch: bool)
    reads ex, ex.rdyTbl, ex.prioTbl, g
    requires ex.rdyTbl.Length == OS_RDY_TBL_SIZE && ex.prioTbl.Length == OS_LOWEST_PRIO + 1
  {
    (switch <==> HighestReadyPrio(ex.rdyGrp, ex.rdyTbl[..]) < ex.prioCur &&
                 (legacy || (g.intNesting == 0 && g.lockNesting == 0))) &&
    (switch ==> ex.prioHighRdy == HighestReadyPrio(ex.rdyGrp, ex.rdyTbl[..]) &&
                ex.tcbHighRdy == ex.prioTbl[ex.prioHighRdy]) &&
    (!switch ==> ex.prioHighRdy == old(ex.prioHighRdy) && ex.tcbHighRdy == old(ex.tcbHighRdy))
  }

  /**
   * The effect of a successful `OS_TASK_STORAGE::init` at `prio`: one new
   * TCB, spawned with no stack and the priority's fields, in the table at
   * `prio`; exactly `prio` became ready; its slot is not in the timer queue.
   */
  twostate predicate Created(ex: SyncExecutor, prio: nat, legacy: bool)
    reads ex, ex.rdyTbl, ex.prioTbl, ex.queue
    requires ex.rdyTbl.Length == OS_RDY_TBL_SIZE && prio < ex.prioTbl.Length
  {
    var n := |old(ex.tcbs)|;
    |ex.tcbs| == n + 1 && ex.tcbs[..n] == old(ex.tcbs) &&
    WellFormed(ex.tcbs[n]) && ex.tcbs[n].prio == prio && ex.tcbs[n].spawned &&
    ex.tcbs[n].stk.None? && !ex.tcbs[n].needsStackSave && ex.tcbs[n].inThreadPoll == legacy &&
    ex.prioTbl[..] == old(ex.prioTbl[..])[prio := Slot(n)] &&
    ReadySet(ex.rdyTbl[..]) == old(ReadySet(ex.rdyTbl[..])) + {prio} &&
    ex.queue.items == old(ex.queue.items) && ex.queue.expires == old(ex.queue.expires) + [TQ.NEVER]
  }

  /** The `IntCtxSW` of the kernel in use. */
  method Reschedule(ex: SyncExecutor, g: OsGlobals, legacy: bool) returns (switch: bool)
    requires ex.ReadyOk() && ex.prioTbl.Length == OS_LOWEST_PRIO + 1
    modifies ex`prioHighRdy, ex`tcbHighRdy
    ensures SwitchDecided(ex, g, legacy, switch)
  {
    if legacy {
      switch := ex.IntCtxSwLegacy();
    } else {
      switch := ex.IntCtxSw(g.intNesting, g.lockNesting);
    }
  }

  /**
   * `init_task`: `OS_ERR_TASK_CREATE_ISR` inside an interrupt; otherwise, in
   * one critical section, `OS_ERR_PRIO_EXIST` when the priority is taken and
   * else a reservation of it; then `init`, and a context-switch decision if
   * the kernel runs.  `init` only returns `OS_ERR_NONE` (it panics
   * otherwise, and fresh storage never makes it panic), so the branch that
   * clears the reservation again cannot be reached.
   */
  method InitTask(ex: SyncExecutor, g: OsGlobals, prio: nat, legacy: bool) returns (err: OsErr, switch: bool)
    requires ex.Valid() && prio <= OS_LOWEST_PRIO
    modifies ex`tcbs, ex`rdyGrp, ex.rdyTbl, ex.prioTbl, ex.queue`expires, ex.queue`next, ex.queue`prev
    modifies ex`prioHighRdy, ex`tcbHighRdy
    ensures ex.Valid()
    ensures err == if g.intNesting > 0 then OS_ERR_TASK_CREATE_ISR
                   else if old(ex.prioTbl[prio]) != Null then OS_ERR_PRIO_EXIST
                   else OS_ERR_NONE
    ensures err != OS_ERR_NONE ==> !switch && unchanged(ex, ex.prioTbl, ex.rdyTbl, ex.queue)
    ensures err == OS_ERR_NONE ==> Created(ex, prio, legacy)
    ensures err == OS_ERR_NONE && g.running ==> SwitchDecided(ex, g, legacy, switch)
    ensures !(err == OS_ERR_NONE && g.running) ==>
              !switch && ex.prioHighRdy == old(ex.prioHighRdy) && ex.tcbHighRdy == old(ex.tcbHighRdy)
  {
    switch := false;
    if g.intNesting > 0 {
      return OS_ERR_TASK_CREATE_ISR, false;
    }
    var exist := ex.PrioExist(prio);
    if exist {
      return OS_ERR_PRIO_EXIST, false;
    }
    ex.ReserveBit(prio);
    var t;
    err, t := ex.InitTcb(prio, legacy);
    if err == OS_ERR_NONE {
      if g.running {
        switch := Reschedule(ex, g, legacy);
      }
    } else {
      assert false;
    }
  }

  /** `DEFAULT_REVOKE_STACK_SIZE`: the bytes below `_ptos` given back as a stack block. */
  const DEFAULT_REVOKE_STACK_SIZE: nat := 128
  /** Addresses are 32 bits wide on the supported chips. */
  const ADDR_SPACE: nat := 0x1_0000_0000

  /**
   * `_ptos.offset(-128)`: the address 128 bytes below the stack top given by
   * the caller, wrapping in the 32-bit address space.
   */
  function RevokeAddr(ptos: u32): (a: nat)
    ensures a < ADDR_SPACE
    ensures ptos >= DEFAULT_REVOKE_STACK_SIZE ==> a == ptos - DEFAULT_REVOKE_STACK_SIZE
    ensures a == 0 <==> ptos == DEFAULT_REVOKE_STACK_SIZE
  {
    (ptos + ADDR_SPACE - DEFAULT_REVOKE_STACK_SIZE) % ADDR_SPACE
  }

  /** The blocks the creation gives back: none for a null `_ptos`, else the 128 bytes below it, aligned to 4. */
  function Revoked(ptos: u32): (r: seq<SA.Block>)
    ensures ptos == 0 <==> r == []
    ensures ptos != 0 ==> r == [SA.Block(RevokeAddr(ptos), SA.StkLayout(DEFAULT_REVOKE_STACK_SIZE, 4))]
  {
    if ptos == 0 then [] else [SA.Block(RevokeAddr(ptos), SA.StkLayout(DEFAULT_REVOKE_STACK_SIZE, 4))]
  }

  /**
   * The `_ptos` step of both creation services: a non-null `_ptos` is turned
   * into a stack reference over the 128 bytes below it (`stk_from_ptr`, which
   * panics on a null address) and freed with `dealloc_stack`; the drop at the
   * end of the block then finds it dangling, so the block is given back once.
   */
  method RevokePtos(h: SA.BlockHeap, ptos: u32) returns (r: Outcome<()>)
    modifies h
    ensures r.Panic? <==> ptos == DEFAULT_REVOKE_STACK_SIZE
    ensures h.region == old(h.region) && h.allocs == old(h.allocs)
    ensures r.Panic? ==> h.frees == old(h.frees)
    ensures r.Done? ==> h.frees == old(h.frees) + Revoked(ptos)
  {
    if ptos == 0 {
      return Done(());
    }
    var layout := SA.StkLayout(DEFAULT_REVOKE_STACK_SIZE, 4);
    var stk := SA.StkFromPtr(RevokeAddr(ptos), layout);
    if stk.Panic? {
      return Panic(stk.reason);
    }
    stk.value.DeallocStack(h);
    stk.value.Drop(h);
    r := Done(());
  }

  /**
   * `SyncOSTaskCreate` (and `OSTaskCreate`, which calls it):
   * `OS_ERR_PRIO_INVALID` above the lowest priority, with nothing changed;
   * otherwise the `_ptos` block is given back (`RevokePtos`), then the newer
   * kernel counts the task in `OSTaskCtr` before `init_task` runs, whatever
   * its outcome, and the older one does not.
   */
  method SyncTaskCreate(ex: SyncExecutor, g: OsGlobals, h: SA.BlockHeap, prio: u8, ptos: u32, legacy: bool)
    returns (r: Outcome<OsErr>, switch: bool)
    requires ex.Valid()
    modifies ex`tcbs, ex`rdyGrp, ex.rdyTbl, ex.prioTbl, ex.queue`expires, ex.queue`next, ex.queue`prev
    modifies ex`prioHighRdy, ex`tcbHighRdy, g`taskCtr, h
    ensures ex.Valid() && h.region == old(h.region) && h.allocs == old(h.allocs)
    ensures prio > OS_LOWEST_PRIO ==>
              r == Done(OS_ERR_PRIO_INVALID) && !switch && g.taskCtr == old(g.taskCtr) && h.frees == old(h.frees) &&
              unchanged(ex, ex.prioTbl, ex.rdyTbl, ex.queue)
    ensures prio <= OS_LOWEST_PRIO ==> (r.Panic? <==> ptos == DEFAULT_REVOKE_STACK_SIZE)
    ensures r.Panic? ==> !switch && h.frees == old(h.frees) && unchanged(ex, ex.prioTbl, ex.rdyTbl, ex.queue, g)
    ensures r.Done? && prio <= OS_LOWEST_PRIO ==>
              h.frees == old(h.frees) + Revoked(ptos) &&
              g.taskCtr == (if legacy then old(g.taskCtr) else Inc8(old(g.taskCtr))) &&
              r.value == if g.intNesting > 0 then OS_ERR_TASK_CREATE_ISR
                         else if old(ex.prioTbl[prio]) != Null then OS_ERR_PRIO_EXIST
                         else OS_ERR_NONE
    ensures r.Done? && r.value != OS_ERR_NONE ==> !switch && unchanged(ex, ex.prioTbl, ex.rdyTbl, ex.queue)
    ensures r == Done(OS_ERR_NONE) ==> prio <= OS_LOWEST_PRIO && Created(ex, prio, legacy)
    ensures r == Done(OS_ERR_NONE) && g.running ==> SwitchDecided(ex, g, legacy, switch)
    ensures !(r == Done(OS_ERR_NONE) && g.running) ==>
              !switch && ex.prioHighRdy == old(ex.prioHighRdy) && ex.tcbHighRdy == old(ex.tcbHighRdy)
  {
    if prio > OS_LOWEST_PRIO {
      return Done(OS_ERR_PRIO_INVALID), false;
    }
    var revoked := RevokePtos(h, ptos);
    if revoked.Panic? {
      return Panic(revoked.reason), false;
    }
    if !legacy {
      g.IncTaskCtr();
    }
    var err;
    err, switch := InitTask(ex, g, prio, legacy);
    r := Done(err);
  }

  /**
   * `AsyncOSTaskCreate`: the same without the priority check, so a priority
   * above the lowest one indexes past the 64-entry table; callers must not
   * pass one.
   */
  method AsyncTaskCreate(ex: SyncExecutor, g: OsGlobals, h: SA.BlockHeap, prio: u8, ptos: u32, legacy: bool)
    returns (r: Outcome<OsErr>, switch: bool)
    requires ex.Valid() && prio <= OS_LOWEST_PRIO
    modifies ex`tcbs, ex`rdyGrp, ex.rdyTbl, ex.prioTbl, ex.queue`expires, ex.queue`next, ex.queue`prev
    modifies ex`prioHighRdy, ex`tcbHighRdy, g`taskCtr, h
    ensures ex.Valid() && h.region == old(h.region) && h.allocs == old(h.allocs)
    ensures r.Panic? <==> ptos == DEFAULT_REVOKE_STACK_SIZE
    ensures r.Panic? ==> !switch && h.frees == old(h.frees) && unchanged(ex, ex.prioTbl, ex.rdyTbl, ex.queue, g)
    ensures r.Done? ==>
              h.frees == old(h.frees) + Revoked(ptos) &&
              g.taskCtr == (if legacy then old(g.taskCtr) else Inc8(old(g.taskCtr))) &&
              r.value == if g.intNesting > 0 then OS_ERR_TASK_CREATE_ISR
                         else if old(ex.prioTbl[prio]) != Null then OS_ERR_PRIO_EXIST
                         else OS_ERR_NONE
    ensures r.Done? && r.value != OS_ERR_NONE ==> !switch && unchanged(ex, ex.prioTbl, ex.rdyTbl, ex.queue)
    ensures r == Done(OS_ERR_NONE) ==> Created(ex, prio, legacy)
    ensures r == Done(OS_ERR_NONE) && g.running ==> SwitchDecided(ex, g, legacy, switch)
    ensures !(r == Done(OS_ERR_NONE) && g.running) ==>
              !switch && ex.prioHighRdy == old(ex.prioHighRdy) && ex.tcbHighRdy == old(ex.tcbHighRdy)
  {
    var revoked := RevokePtos(h, ptos);
    if revoked.Panic? {
      return Panic(revoked.reason), false;
    }
    if !legacy {
      g.IncTaskCtr();
    }
    var err;
    err, switch := InitTask(ex, g, prio, legacy);
    r := Done(err);
  }

  /**
   * `OS_InitTaskIdle`, the task-creating step of the older `OSInit`: the idle
   * task is created at `OS_TASK_IDLE_PRIO`.  On a fresh executor outside an
   * interrupt this succeeds, the idle priority names the new task and is
   * ready, and `OSTaskCtr` stays as it was.  The stack top passed is null,
   * so no block is given back.
   */
  method InitTaskIdle(ex: SyncExecutor, g: OsGlobals, h: SA.BlockHeap) returns (err: OsErr)
    requires ex.Valid()
    modifies ex`tcbs, ex`rdyGrp, ex.rdyTbl, ex.prioTbl, ex.queue`expires, ex.queue`next, ex.queue`prev
    modifies ex`prioHighRdy, ex`tcbHighRdy, g`taskCtr, h
    ensures ex.Valid() && g.taskCtr == old(g.taskCtr) && h.frees == old(h.frees)
    ensures err == OS_ERR_NONE <==> g.intNesting == 0 && old(ex.prioTbl[OS_TASK_IDLE_PRIO]) == Null
    ensures err == OS_ERR_NONE ==>
              ex.prioTbl[OS_TASK_IDLE_PRIO] == Slot(|old(ex.tcbs)|) &&
              ex.tcbs[|old(ex.tcbs)|].prio == OS_TASK_IDLE_PRIO &&
              OS_TASK_IDLE_PRIO in ReadySet(ex.rdyTbl[..])
  {
    var r, switch := SyncTaskCreate(ex, g, h, OS_TASK_IDLE_PRIO, 0, true);
    err := r.value;
  }

  /**
   * The priority `OSTaskChangePrio` and `OSTaskDel` act on: `OS_PRIO_SELF`
   * names the current task (`OSTaskDel` reads `OSPrioCur` whether or not the
   * kernel runs; `OSTaskChangePrio` only once it runs).
   */
  function Target(prio: nat, prioCur: nat): (p: nat)
    ensures prio != OS_PRIO_SELF ==> p == prio
    ensures prio == OS_PRIO_SELF ==> p == prioCur
  {
    if prio == OS_PRIO_SELF then prioCur else prio
  }

  /**
   * The argument checks of `OSTaskChangePrio`, compiled in only with
   * `OS_ARG_CHK_EN`: the old priority below the lowest one or `OS_PRIO_SELF`,
   * the new one below the lowest one.
   */
  predicate ChangeArgsOk(oldPrio: nat, newPrio: nat, argChk: bool)
  {
    !argChk || ((oldPrio < OS_LOWEST_PRIO || oldPrio == OS_PRIO_SELF) && newPrio < OS_LOWEST_PRIO)
  }

  /**
   * A successful priority change of the task at `from` to `to`: its table
   * entry moves, its TCB gets the new priority fields (`WithPrio`), its
   * readiness moves with it, and `OSPrioCur` follows the current task of a
   * running kernel.
   */
  twostate predicate PrioChanged(ex: SyncExecutor, from: nat, to: nat, running: bool)
    reads ex, ex.rdyTbl, ex.prioTbl
    requires ex.rdyTbl.Length == OS_RDY_TBL_SIZE && ex.prioTbl.Length == OS_LOWEST_PRIO + 1
    requires from <= OS_LOWEST_PRIO && to <= OS_LOWEST_PRIO
  {
    var t := old(ex.prioTbl[from]);
    t.Slot? && t.i < |old(ex.tcbs)| &&
    ex.prioTbl[..] == old(ex.prioTbl[..])[from := Null][to := t] &&
    ex.tcbs == old(ex.tcbs)[t.i := WithPrio(old(ex.tcbs)[t.i], to)] &&
    ReadySet(ex.rdyTbl[..]) == (if from in old(ReadySet(ex.rdyTbl[..]))
                                then old(ReadySet(ex.rdyTbl[..])) - {from} + {to}
                                else old(ReadySet(ex.rdyTbl[..]))) &&
    ex.prioCur == (if running && from == old(ex.prioCur) then to else old(ex.prioCur))
  }

  /**
   * The critical section of `OSTaskChangePrio`: `OS_ERR_PRIO_EXIST` if the
   * new priority is taken; `OS_PRIO_SELF` means the current task only once
   * the kernel runs; `OS_ERR_PRIO` if no task has the old priority;
   * otherwise the task moves (`MoveTask`) and, if it is the current task of
   * a running kernel, `OSPrioCur` follows it.  No error changes anything.
   */
  method ChangePrioSection(ex: SyncExecutor, g: OsGlobals, oldPrio: u8, newPrio: u8) returns (err: OsErr)
    requires ex.Valid() && NoReservation(ex) && newPrio <= OS_LOWEST_PRIO
    requires ex.prioTbl[newPrio] == Null ==>
               Target(oldPrio, if g.running then ex.prioCur else OS_PRIO_SELF) <= OS_LOWEST_PRIO
    modifies ex`tcbs, ex`rdyGrp, ex.rdyTbl, ex.prioTbl, ex`prioCur
    ensures ex.Valid() && NoReservation(ex)
    ensures err == OS_ERR_PRIO_EXIST <==> old(ex.prioTbl[newPrio]) != Null
    ensures err != OS_ERR_NONE ==> unchanged(ex, ex.prioTbl, ex.rdyTbl)
    ensures err == OS_ERR_NONE <==>
              old(ex.prioTbl[newPrio]) == Null &&
              old(ex.prioTbl[Target(oldPrio, if g.running then ex.prioCur else OS_PRIO_SELF)]) != Null
    ensures err in {OS_ERR_NONE, OS_ERR_PRIO_EXIST, OS_ERR_PRIO}
    ensures err == OS_ERR_NONE ==>
              PrioChanged(ex, Target(oldPrio, if g.running then old(ex.prioCur) else OS_PRIO_SELF), newPrio, g.running)
  {
    if ex.prioTbl[newPrio].IsSome() {
      return OS_ERR_PRIO_EXIST;
    }
    var from: nat := oldPrio;
    if g.running && oldPrio == OS_PRIO_SELF {
      from := ex.prioCur;
    }
    if !ex.prioTbl[from].IsSome() {
      return OS_ERR_PRIO;
    }
    ghost var cur0 := ex.prioCur;
    if g.running && from == ex.prioCur {
      ex.prioCur := newPrio;
    }
    ex.MoveTask(from, newPrio);
    assert ex.prioCur == (if g.running && from == cur0 then newPrio else cur0);
    err := OS_ERR_NONE;
  }

  /**
   * `OSTaskChangePrio`: with the argument checks compiled in, bad priorities
   * give `OS_ERR_PRIO_INVALID` and change nothing; then the critical section
   * (`OS_ERR_PRIO_EXIST`, `OS_ERR_PRIO`, or the move), and after a success a
   * context-switch decision if the kernel runs.  The
   * source indexes the table with both priorities unchecked when the argument
   * checks are not compiled in, and with `OS_PRIO_SELF` itself while the
   * kernel is not running; the requires exclude those indexings.
   */
  method ChangePrio(ex: SyncExecutor, g: OsGlobals, oldPrio: u8, newPrio: u8, argChk: bool)
    returns (err: OsErr, switch: bool)
    requires ex.Valid() && NoReservation(ex)
    requires ChangeArgsOk(oldPrio, newPrio, argChk) ==> newPrio <= OS_LOWEST_PRIO
    requires ChangeArgsOk(oldPrio, newPrio, argChk) && ex.prioTbl[newPrio] == Null ==>
               Target(oldPrio, if g.running then ex.prioCur else OS_PRIO_SELF) <= OS_LOWEST_PRIO
    modifies ex`tcbs, ex`rdyGrp, ex.rdyTbl, ex.prioTbl, ex`prioCur, ex`prioHighRdy, ex`tcbHighRdy
    ensures ex.Valid() && NoReservation(ex)
    ensures !ChangeArgsOk(oldPrio, newPrio, argChk) ==>
              err == OS_ERR_PRIO_INVALID && unchanged(ex, ex.prioTbl, ex.rdyTbl)
    ensures ChangeArgsOk(oldPrio, newPrio, argChk) && old(ex.prioTbl[newPrio]) != Null ==> err == OS_ERR_PRIO_EXIST
    ensures err != OS_ERR_NONE ==> !switch && unchanged(ex, ex.prioTbl, ex.rdyTbl)
    ensures err == OS_ERR_NONE ==> ChangeArgsOk(oldPrio, newPrio, argChk) && old(ex.prioTbl[newPrio]) == Null
    ensures ChangeArgsOk(oldPrio, newPrio, argChk) && old(ex.prioTbl[newPrio]) == Null ==>
              (err == OS_ERR_PRIO <==>
                 old(ex.prioTbl[Target(oldPrio, if g.running then ex.prioCur else OS_PRIO_SELF)]) == Null)
    ensures err == OS_ERR_NONE ==>
              PrioChanged(ex, Target(oldPrio, if g.running then old(ex.prioCur) else OS_PRIO_SELF), newPrio, g.running)
    ensures err == OS_ERR_NONE && g.running ==> SwitchDecided(ex, g, false, switch)
    ensures !(err == OS_ERR_NONE && g.running) ==>
              !switch && ex.prioHighRdy == old(ex.prioHighRdy) && ex.tcbHighRdy == old(ex.tcbHighRdy)
  {
    switch := false;
    if !ChangeArgsOk(oldPrio, newPrio, argChk) {
      return OS_ERR_PRIO_INVALID, false;
    }
    err := ChangePrioSection(ex, g, oldPrio, newPrio);
    if err != OS_ERR_NONE {
      return err, false;
    }
    if g.running {
      switch := Reschedule(ex, g, false);
    }
  }

  /**
   * The TCB writes of a successful `OSTaskDel` on `t0`: register table
   * zeroed, despawned; while the kernel runs, the current task only stops
   * needing its stack saved (the context switch frees it) and any other task
   * loses its stack.  The priority fields and everything else are kept.
   */
  ghost predicate Deleted(t0: Tcb, t: Tcb, running: bool, isCur: bool)
  {
    t == t0.(spawned := false, regTbl := t.regTbl,
             stk := if running && !isCur then None else t0.stk,
             needsStackSave := if running && isCur then false else t0.needsStackSave) &&
    |t.regTbl| == |t0.regTbl| && forall k :: 0 <= k < |t.regTbl| ==> t.regTbl[k] == 0
  }

  /** The stack objects held by the TCBs: what deleting a task may free. */
  ghost function Stacks(tcbs: seq<Tcb>): (r: set<SA.StkRef>)
    ensures forall k :: 0 <= k < |tcbs| && tcbs[k].stk.Some? ==> tcbs[k].stk.value in r
  {
    set k | 0 <= k < |tcbs| && tcbs[k].stk.Some? :: tcbs[k].stk.value
  }

  /**
   * The stack step of `OSTaskDel` on the TCB `t`: while the kernel runs, the
   * current task only stops needing its stack saved, and another task's stack
   * is taken with `take_stk`, which panics when there is none, then freed by
   * `dealloc_stack` and dropped, so its block is given back once if it owned
   * one.  Before the kernel runs nothing happens.
   */
  method ReleaseStack(h: SA.BlockHeap, t: Tcb, running: bool, isCur: bool) returns (r: Outcome<Tcb>)
    modifies h, if t.stk.Some? then {t.stk.value} else {}
    ensures r.Panic? <==> running && !isCur && t.stk.None?
    ensures r.Done? ==> r.value == t.(stk := if running && !isCur then None else t.stk,
                                      needsStackSave := if running && isCur then false else t.needsStackSave)
    ensures running && !isCur && t.stk.Some? && old(t.stk.value.Owns()) ==>
              h.frees == old(h.frees) + [SA.Block(old(t.stk.value.heap.addr), old(t.stk.value.layout))]
    ensures !(running && !isCur && t.stk.Some? && old(t.stk.value.Owns())) ==> h.frees == old(h.frees)
  {
    if !running {
      return Done(t);
    }
    if isCur {
      return Done(t.(needsStackSave := false));
    }
    var taken := TakeStk(t);
    if taken.0.Panic? {
      return Panic(taken.0.reason);
    }
    var s := taken.0.value;
    s.DeallocStack(h);
    s.Drop(h);
    r := Done(taken.1);
  }

  /**
   * A successful `OSTaskDel` of the task at `p`: it leaves the priority table
   * and the ready set, `OSTaskCtr` goes down by one (wrapping), its TCB is
   * written as `Deleted` says, it leaves the timer queue with its expiry set
   * to u64::MAX (the others keep their order), and another task's owned stack
   * block is given back once while the kernel runs.
   */
  twostate predicate TaskDeleted(ex: SyncExecutor, g: OsGlobals, h: SA.BlockHeap, p: nat, isCur: bool)
    reads ex, ex.rdyTbl, ex.prioTbl, ex.queue, g, h
    requires ex.rdyTbl.Length == OS_RDY_TBL_SIZE && p < ex.prioTbl.Length
  {
    var t := old(ex.prioTbl[p]);
    t.Slot? && t.i < |old(ex.tcbs)| && |ex.tcbs| == |old(ex.tcbs)| && t.i < |old(ex.queue.expires)| &&
    ex.prioTbl[..] == old(ex.prioTbl[..])[p := Null] &&
    ReadySet(ex.rdyTbl[..]) == old(ReadySet(ex.rdyTbl[..])) - {p} &&
    g.taskCtr == Dec8(old(g.taskCtr)) &&
    ex.tcbs == old(ex.tcbs)[t.i := ex.tcbs[t.i]] &&
    Deleted(old(ex.tcbs[t.i]), ex.tcbs[t.i], g.running, isCur) &&
    Unqueued(old(ex.queue.expires), old(ex.queue.items), ex.queue.expires, ex.queue.items, t.i) &&
    var s := old(ex.tcbs[t.i].stk);
    var frees := g.running && !isCur && s.Some? && old(s.value.Owns());
    h.frees == old(h.frees) + (if frees then [SA.Block(old(s.value.heap.addr), old(s.value.layout))] else [])
  }

  /**
   * The critical section of `OSTaskDel`: `OS_ERR_TASK_NOT_EXIST` with nothing
   * changed if the priority holds no task; otherwise the task stops being
   * ready and leaves the priority table, `OSTaskCtr` goes down by one
   * (wrapping), its TCB is written as `Deleted` says (`ReleaseStack` frees
   * the stack of another task), and it leaves the timer queue with its expiry
   * set to u64::MAX.  A panic of `take_stk` ends the kernel, so nothing is
   * said about the state it leaves; the stack step is therefore taken before
   * the executor writes, which the source makes first.
   */
  method TaskDelSection(ex: SyncExecutor, g: OsGlobals, h: SA.BlockHeap, prio: nat) returns (r: Outcome<OsErr>)
    requires ex.Valid() && NoReservation(ex) && Target(prio, ex.prioCur) <= OS_LOWEST_PRIO
    modifies ex`tcbs, ex`rdyGrp, ex.rdyTbl, ex.prioTbl, g`taskCtr, h, Stacks(ex.tcbs)
    modifies ex.queue`expires, ex.queue`head, ex.queue`items, ex.queue`next, ex.queue`prev
    ensures ex.Valid() && NoReservation(ex)
    ensures var t := old(ex.prioTbl[Target(prio, ex.prioCur)]);
            r.Panic? <==> t.Slot? && t.i < |old(ex.tcbs)| && g.running &&
                          Target(prio, ex.prioCur) != ex.prioCur && old(ex.tcbs[t.i].stk).None?
    ensures r == Done(OS_ERR_TASK_NOT_EXIST) <==> old(ex.prioTbl[Target(prio, ex.prioCur)]) == Null
    ensures r == Done(OS_ERR_TASK_NOT_EXIST) ==>
              unchanged(ex, ex.prioTbl, ex.rdyTbl, ex.queue, g, h) && ex.queue.items == old(ex.queue.items)
    ensures r.Done? ==> r.value in {OS_ERR_NONE, OS_ERR_TASK_NOT_EXIST}
    ensures r == Done(OS_ERR_NONE) ==> TaskDeleted(ex, g, h, Target(prio, ex.prioCur), Target(prio, ex.prioCur) == ex.prioCur)
  {
    var p := Target(prio, ex.prioCur);
    var t := ex.prioTbl[p];
    if !t.IsSome() {
      return Done(OS_ERR_TASK_NOT_EXIST);
    }
    assert t != Reserved;
    r := DeleteFound(ex, g, h, p, p == ex.prioCur);
  }

  /** The part of the section after the task at `p` was found. */
  method DeleteFound(ex: SyncExecutor, g: OsGlobals, h: SA.BlockHeap, p: nat, isCur: bool) returns (r: Outcome<OsErr>)
    requires ex.Valid() && NoReservation(ex) && p <= OS_LOWEST_PRIO && ex.prioTbl[p].Slot?
    modifies ex`tcbs, ex`rdyGrp, ex.rdyTbl, ex.prioTbl, g`taskCtr, h, Stacks(ex.tcbs)
    modifies ex.queue`expires, ex.queue`head, ex.queue`items, ex.queue`next, ex.queue`prev
    ensures ex.Valid() && NoReservation(ex)
    ensures r.Panic? <==> g.running && !isCur && old(ex.tcbs[ex.prioTbl[p].i].stk).None?
    ensures r.Done? ==> r.value == OS_ERR_NONE && TaskDeleted(ex, g, h, p, isCur)
  {
    var i := ex.prioTbl[p].i;
    var released := ClearTcb(ex.tcbs, i, g, h, isCur);
    if released.Panic? {
      return Panic(released.reason);
    }
    ex.Delete(p, released.value);
    r := Done(OS_ERR_NONE);
  }

  /**
   * The TCB writes of the deletion of the task in slot `i`: its register
   * table is zeroed, it is no longer spawned, `OSTaskCtr` goes down and its
   * stack is dealt with as `ReleaseStack` says.
   */
  method ClearTcb(tcbs: seq<Tcb>, i: nat, g: OsGlobals, h: SA.BlockHeap, isCur: bool) returns (r: Outcome<Tcb>)
    requires i < |tcbs| && WellFormed(tcbs[i])
    modifies g`taskCtr, h, Stacks(tcbs)
    ensures g.taskCtr == Dec8(old(g.taskCtr))
    ensures r.Panic? <==> g.running && !isCur && tcbs[i].stk.None?
    ensures r.Done? ==> Deleted(tcbs[i], r.value, g.running, isCur) && WellFormed(r.value) && r.value.prio == tcbs[i].prio
    ensures var s := tcbs[i].stk;
            var frees := g.running && !isCur && s.Some? && old(s.value.Owns());
            r.Done? ==> h.frees == old(h.frees) + (if frees then [SA.Block(old(s.value.heap.addr), old(s.value.layout))] else [])
  {
    var z := ZeroRegTbl(tcbs[i]);
    z := z.(spawned := false);
    g.DecTaskCtr();
    r := ReleaseStack(h, z, g.running, isCur);
  }



  /** The checks `OSTaskDel` makes before its critical section all pass. */
  predicate DelChecksPass(intNesting: nat, prio: nat, argChk: bool)
  {
    intNesting == 0 && prio != OS_TASK_IDLE_PRIO && !(argChk && prio >= OS_LOWEST_PRIO && prio != OS_PRIO_SELF)
  }

  /**
   * `OSTaskDel`: `OS_ERR_TASK_DEL_ISR` inside an interrupt, then
   * `OS_ERR_TASK_DEL_IDLE` for the idle priority, then, with the argument
   * checks compiled in, `OS_ERR_PRIO_INVALID` for a priority above the lowest
   * one other than `OS_PRIO_SELF`; none of these changes anything.  Then the
   * critical section (`OS_ERR_TASK_NOT_EXIST`, the `take_stk` panic, or the
   * deletion), and after a success a context-switch decision if the kernel
   * runs.  Without the argument checks a priority above the lowest one
   * would index past the table; the requires exclude it.
   */
  method TaskDel(ex: SyncExecutor, g: OsGlobals, h: SA.BlockHeap, prio: u8, argChk: bool)
    returns (r: Outcome<OsErr>, switch: bool)
    requires ex.Valid() && NoReservation(ex)
    requires g.intNesting == 0 && !argChk ==> prio <= OS_LOWEST_PRIO || prio == OS_PRIO_SELF
    modifies ex`tcbs, ex`rdyGrp, ex.rdyTbl, ex.prioTbl, g`taskCtr, h, Stacks(ex.tcbs)
    modifies ex.queue`expires, ex.queue`head, ex.queue`items, ex.queue`next, ex.queue`prev
    modifies ex`prioHighRdy, ex`tcbHighRdy
    ensures ex.Valid() && NoReservation(ex)
    ensures g.intNesting > 0 ==> r == Done(OS_ERR_TASK_DEL_ISR)
    ensures g.intNesting == 0 && prio == OS_TASK_IDLE_PRIO ==> r == Done(OS_ERR_TASK_DEL_IDLE)
    ensures (g.intNesting == 0 && prio != OS_TASK_IDLE_PRIO && argChk &&
             prio > OS_LOWEST_PRIO && prio != OS_PRIO_SELF) ==> r == Done(OS_ERR_PRIO_INVALID)
    ensures r.Done? && r.value in {OS_ERR_TASK_DEL_ISR, OS_ERR_TASK_DEL_IDLE,
                                   OS_ERR_PRIO_INVALID, OS_ERR_TASK_NOT_EXIST}
            ==> !switch && unchanged(ex, ex.prioTbl, ex.rdyTbl, ex.queue, g, h)
    ensures DelChecksPass(g.intNesting, prio, argChk) ==>
              (r == Done(OS_ERR_TASK_NOT_EXIST) <==> old(ex.prioTbl[Target(prio, ex.prioCur)]) == Null)
    ensures r.Panic? <==>
              DelChecksPass(g.intNesting, prio, argChk) &&
              var t := old(ex.prioTbl[Target(prio, ex.prioCur)]);
              t.Slot? && t.i < |old(ex.tcbs)| && g.running &&
              Target(prio, ex.prioCur) != ex.prioCur && old(ex.tcbs[t.i].stk).None?
    ensures r == Done(OS_ERR_NONE) ==>
              DelChecksPass(g.intNesting, prio, argChk) &&
              TaskDeleted(ex, g, h, Target(prio, ex.prioCur), Target(prio, ex.prioCur) == ex.prioCur)
    ensures r == Done(OS_ERR_NONE) && g.running ==> SwitchDecided(ex, g, false, switch)
    ensures !(r == Done(OS_ERR_NONE) && g.running) ==>
              !switch && ex.prioHighRdy == old(ex.prioHighRdy) && ex.tcbHighRdy == old(ex.tcbHighRdy)
  {
    switch := false;
    if g.intNesting > 0 {
      return Done(OS_ERR_TASK_DEL_ISR), false;
    }
    if prio == OS_TASK_IDLE_PRIO {
      return Done(OS_ERR_TASK_DEL_IDLE), false;
    }
    if argChk && prio >= OS_LOWEST_PRIO && prio != OS_PRIO_SELF {
      return Done(OS_ERR_PRIO_INVALID), false;
    }
    r := TaskDelSection(ex, g, h, prio);
    if r != Done(OS_ERR_NONE) {
      return r, false;
    }
    if g.running {
      switch := Reschedule(ex, g, false);
    }
  }
}

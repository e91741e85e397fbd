/**
 * The kernel's global counters and flags: `OSIntNesting`, `OSLockNesting` and
 * `OSTaskCtr` (8-bit atomics), `OSCtxSwCtr` and `OSIdleCtr` (32-bit atomics)
 * and `OSRunning`, with `OS_InitMisc`, which resets them.  Every atomic
 * access happens inside a critical section or from the one running task, so
 * the model reads and writes them as plain fields.
 */
module OsCore {
  import opened Config

  /** Wrapping 8-bit increment, as `AtomicU8::fetch_add(1)` does. */
  function Inc8(x: u8): (r: u8)
    ensures x < U8_MAX ==> r == x + 1
    ensures x == U8_MAX ==> r == 0
  {
    (x + 1) % (U8_MAX + 1)
  }

  /** Wrapping 8-bit decrement, as `AtomicU8::fetch_sub(1)` does. */
  function Dec8(x: u8): (r: u8)
    ensures x > 0 ==> r == x - 1
    ensures x == 0 ==> r == U8_MAX
  {
    (x + U8_MAX) % (U8_MAX + 1)
  }

  /** Decrementing undoes incrementing, also across the wrap. */
  lemma DecInc(x: u8)
    ensures Dec8(Inc8(x)) == x && Inc8(Dec8(x)) == x
  {
  }

  class OsGlobals {
    var intNesting: u8
    var lockNesting: u8
    var taskCtr: u8
    var ctxSwCtr: u32
    var idleCtr: u32
    var running: bool

    /** The statics' initial values. */
    constructor ()
      ensures intNesting == 0 && lockNesting == 0 && taskCtr == 0
      ensures ctxSwCtr == 0 && idleCtr == 0 && !running
    {
      intNesting := 0;
      lockNesting := 0;
      taskCtr := 0;
      ctxSwCtr := 0;
      idleCtr := 0;
      running := false;
    }

    /**
     * `OS_InitMisc`: the interrupt and lock nesting, the task, context-switch
     * and idle counters become zero and multitasking is marked not started.
     */
    method InitMisc()
      modifies this
      ensures intNesting == 0 && lockNesting == 0 && taskCtr == 0
      ensures ctxSwCtr == 0 && idleCtr == 0 && !running
    {
      intNesting := 0;
      lockNesting := 0;
      taskCtr := 0;
      running := false;
      ctxSwCtr := 0;
      idleCtr := 0;
    }

    /** `OSTaskCtr.fetch_add(1)`: wraps at 256; nothing else changes. */
    method IncTaskCtr()
      modifies this`taskCtr
      ensures taskCtr == Inc8(old(taskCtr))
    {
      taskCtr := Inc8(taskCtr);
    }

    /** `OSTaskCtr.fetch_sub(1)`: wraps below zero; nothing else changes. */
    method DecTaskCtr()
      modifies this`taskCtr
      ensures taskCtr == Dec8(old(taskCtr))
    {
      taskCtr := Dec8(taskCtr);
    }
  }
}

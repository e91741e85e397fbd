/**
 * Build-time constants of the kernel and the error codes its services return
 * (the `embassy-preempt-cfg` crate: `lib.rs` and `ucosii.rs`).
 */
module Config {
  /** Lowest (numerically largest) priority; 64 priorities 0..63. */
  const OS_LOWEST_PRIO: nat := 63
  /** The idle task runs at the lowest priority. */
  const OS_TASK_IDLE_PRIO: nat := OS_LOWEST_PRIO
  /** Number of rows of the ready table: OS_LOWEST_PRIO / 8 + 1. */
  const OS_RDY_TBL_SIZE: nat := OS_LOWEST_PRIO / 8 + 1
  /** Argument meaning "the calling task" in OSTaskChangePrio / OSTaskDel. */
  const OS_PRIO_SELF: nat := 0xFF
  /** Number of event control blocks in the event pool. */
  const OS_MAX_EVENTS: nat := 20
  /** Size in bytes of the arena that holds the task storage. */
  const OS_ARENA_SIZE: nat := 10240
  /** Options of OSSemDel. */
  const OS_DEL_NO_PEND: nat := 0
  const OS_DEL_ALWAYS: nat := 1

  const U8_MAX: nat := 0xFF
  const U16_MAX: nat := 0xFFFF
  const U32_MAX: nat := 0xFFFF_FFFF
  const U64_MAX: nat := 0xFFFF_FFFF_FFFF_FFFF

  type u8 = x: nat | x <= U8_MAX
  type u16 = x: nat | x <= U16_MAX
  type u32 = x: nat | x <= U32_MAX
  type u64 = x: nat | x <= U64_MAX

  /**
   * The subset of OS_ERR_STATE that the modelled services can return.  The
   * remaining variants of the Rust enum belong to services (queues, mailboxes,
   * flags, memory partitions, timers) that are not part of this model.
   */
  datatype OsErr =
    | OS_ERR_NONE
    | OS_ERR_EVENT_TYPE
    | OS_ERR_PEND_ISR
    | OS_ERR_PEVENT_NULL
    | OS_ERR_INVALID_OPT
    | OS_ERR_DEL_ISR
    | OS_ERR_PRIO_EXIST
    | OS_ERR_PRIO
    | OS_ERR_PRIO_INVALID
    | OS_ERR_SCHED_LOCKED
    | OS_ERR_SEM_OVF
    | OS_ERR_TASK_CREATE_ISR
    | OS_ERR_TASK_DEL_IDLE
    | OS_ERR_TASK_DEL_ISR
    | OS_ERR_TASK_NOT_EXIST
    | OS_ERR_TASK_WAITING
    | OS_ERR_TIME_NOT_DLY
    | OS_ERR_TIME_INVALID_MINUTES
    | OS_ERR_TIME_INVALID_SECONDS
    | OS_ERR_TIME_INVALID_MS
    | OS_ERR_TIME_ZERO_DLY
    | OS_ERR_TIME_DLY_ISR
}

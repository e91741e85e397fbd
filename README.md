# embassy_preempt kernel core in Dafny

embassy_preempt is a preemptive real-time kernel in Rust. It follows the
uC/OS-II design on top of an Embassy-style async executor. This project
models its kernel core and proves properties of the model. The core comes in
three generations of the code: the newer `modules/` crates, the older
`embassy_preempt/` crate and the intermediate `embassy-preempt-platform/`
crate. Where they differ, a `legacy` or `halfOverflow` flag selects the
behaviour.

Each part of the model keeps the form of the code it models:

- The ready list is a bitmap: `OSRdyGrp`, `OSRdyTbl` and the `OSUnMapTbl`
  lookup table (`Bitmap`, `ReadyList`). The executor holds this bitmap and
  the priority table and is a class whose methods update them in place
  (`Executor.SyncExecutor`). Each method is proved against the set of ready
  priorities and two table invariants:
  - every ready priority names a task of that priority;
  - the group bits agree with the rows.
- The task control blocks (`OS_TCB`) are values in a sequence indexed by
  storage slot (`Task`). A `TcbRef` is a slot, the null reference, or the
  dangling reservation pointer.
- The timer queue is a doubly linked list threaded through those slots
  (`TimerQueue`). Its methods keep the links consistent and the expiries
  sorted. They are specified by the sequence of linked slots.
- The event control blocks live in the fixed event pool with its free list
  (`Event`). The counting semaphore (`OsSem`) is built on them.
- The task services are `OSTaskCreate`, `OSTaskChangePrio` and `OSTaskDel`
  (`OsTask`).
- The time services are `delay_tick`, `OSTimeDly`, `OSTimeDlyHMSM`,
  `OSTimeDlyResume` and the alarm callback (`OsTime`).
- The time types are `Duration`, `Instant` and the `Timer` future.
- The STM32F401RE tick driver is `RtcDriver` (`TimeDriver`).
- The memory parts are the task arena (`Arena`), the stack allocator and
  its stack references (`StackAllocator`), and the platform memory layout
  (`MemoryLayout`).
- The one-shot button futures are in `Futures`.

Hardware and pointers appear as data:

- the counter reading `now` is a parameter;
- a waker is the identity of the polled task;
- a pointer is an address or `Dangling`;
- the heap allocator is a log of its allocations and frees.

## Model

| member | source | states |
|---|---|---|
| Arena.NextMultipleOf | modules/embassy-preempt-executor/src/mem/arena.rs:46 | `next_multiple_of`: the result is a multiple of the alignment, at least the pointer and less than one alignment above it |
| Arena.NextMultipleOfAligned | modules/embassy-preempt-executor/src/mem/arena.rs:46 | an already aligned pointer is its own next multiple |
| Arena.AllocFrom | modules/embassy-preempt-executor/src/mem/arena.rs:33-56 | `alloc` panics exactly when the aligned block does not fit before the end; otherwise the block is aligned, within one alignment of the bump pointer, and the new bump pointer is its end |
| Arena.AllocDisjoint | modules/embassy-preempt-executor/src/mem/arena.rs:33-56 | two successive allocations give disjoint blocks in increasing order inside the arena |
| Arena.RollbackAsWritten | modules/embassy-preempt-executor/src/mem/arena.rs:72-79 | the check as written: rollback happens iff `ptr - size` equals the current pointer, and then the pointer becomes `ptr` |
| Arena.AsWrittenRefusesNewestBlock | modules/embassy-preempt-executor/src/mem/arena.rs:58-80 | freeing the block just allocated (non-zero size) is refused by the check as written |
| Arena.RollbackLifo | modules/embassy-preempt-executor/src/mem/arena.rs:58-80 | the intended check: rollback iff `ptr + size` is the current pointer, and the pointer goes back to `ptr` |
| Arena.LifoRoundTrip | modules/embassy-preempt-executor/src/mem/arena.rs:33-80 | allocating and then freeing the newest block restores the bump pointer, and the same allocation is then granted again |
| Arena.Below | modules/embassy-preempt-executor/src/mem/arena.rs:58-80 | the blocks kept after a rollback form a prefix of the allocated blocks, all ending at or below the new pointer |
| Arena.Arena.constructor | modules/embassy-preempt-executor/src/mem/arena.rs:26-31 | `Arena::new`: no pointer yet (`null`), nothing allocated |
| Arena.Arena.Alloc | modules/embassy-preempt-executor/src/mem/arena.rs:33-56 | the state change of `alloc`, tied to `AllocFrom`; a granted block is appended to the allocation log; a panic changes nothing |
| Arena.Arena.DeallocAsWritten | modules/embassy-preempt-executor/src/mem/arena.rs:58-80 | `dealloc` as written: a null pointer or one at or past the buffer end panics with the pointer unchanged; any other pointer rolls back exactly as `RollbackAsWritten` says or panics; the allocation log is not touched |
| Arena.Arena.Dealloc | modules/embassy-preempt-executor/src/mem/arena.rs:58-80 | corrected `dealloc`: the same bounds panic (null, or at or past the end; an address below the start passes); rollback exactly as `RollbackLifo` says; a panic keeps the log, a rollback leaves exactly the blocks below the freed one; the arena stays valid unless it rolls back below its start |
| Bitmap.ShiftIsBit | modules/embassy-preempt-executor/src/task.rs:243-244 | `1 << n` on u8 is the bit `n` |
| Bitmap.TrailingZerosFromSpec | modules/embassy-preempt-executor/src/lib.rs:153-155 | scanning bits from i upward finds the lowest set bit, or 8 for zero |
| Bitmap.TrailingZerosSpec | modules/embassy-preempt-executor/src/lib.rs:153-155 | `trailing_zeros` is 8 exactly for zero, otherwise the index of the lowest set bit |
| Bitmap.LowestSetBitUnique | modules/embassy-preempt-executor/src/lib.rs:153-155 | a byte has one lowest set bit |
| Bitmap.UnMapTableShape | embassy_preempt/src/os_core.rs:66-83 | `OSUnMapTbl` has 16 rows of 16 entries (256 in all) |
| Bitmap.LowestSetBitMaskIff | embassy_preempt/src/os_core.rs:66-83 | the bit-mask test of "n is the lowest set bit" agrees with its definition, both directions |
| Bitmap.UnMapLowestSetBit | embassy_preempt/src/os_core.rs:66-83 | for every non-zero byte, its `OSUnMapTbl` entry is the index of its lowest set bit |
| Bitmap.UnMapIsTrailingZeros | embassy_preempt/src/os_core.rs:66-83 | `OSUnMapTbl[b]` equals `b.trailing_zeros()` for non-zero b and 0 for zero, so the older and newer lookups agree |
| Duration.GcdSpec | modules/embassy-preempt-executor/src/os_time/duration.rs:11-17 | `gcd` divides both arguments and every common divisor divides it |
| Duration.ScaleGcd | modules/embassy-preempt-executor/src/os_time/duration.rs:18-19 | `GCD_1K`/`GCD_1M` divide both the tick rate and the scale |
| Duration.DivCeil | modules/embassy-preempt-executor/src/os_time/duration.rs:107-109 | `div_ceil` is the ceiling of the quotient: the least r with r * den >= num |
| Duration.ScaleFloorIsFloor | modules/embassy-preempt-executor/src/os_time/duration.rs:78-90 | dividing both factors by the gcd gives exactly floor(m * hz / scale) |
| Duration.ScaleCeilIsCeil | modules/embassy-preempt-executor/src/os_time/duration.rs:58-70 | the reduced `div_ceil` gives exactly ceil(m * hz / scale) |
| Duration.FloorCeilGap | modules/embassy-preempt-executor/src/os_time/duration.rs:58-90 | the rounded-up conversion is the floor or the floor plus one |
| Duration.ScaleBounded | modules/embassy-preempt-executor/src/os_time/duration.rs:58-90 | when the reduced product fits in u64, both conversions fit in u64 |
| Duration.ScaleFloorBounded | modules/embassy-preempt-executor/src/os_time/duration.rs:78-90 | when the reduced product fits in u64, the floor conversion fits in u64 |
| Duration.FromTicks | modules/embassy-preempt-executor/src/os_time/duration.rs:48-50 | the duration holds exactly the given ticks |
| Duration.FromSecs | modules/embassy-preempt-executor/src/os_time/duration.rs:53-55 | `from_secs` is seconds times the tick rate |
| Duration.MillisRounding | modules/embassy-preempt-executor/src/os_time/duration.rs:58-82 | `from_millis_floor` is floor(ms * hz / 1000), `from_millis` is the ceiling, and they differ by at most one |
| Duration.MicrosRounding | modules/embassy-preempt-executor/src/os_time/duration.rs:66-90 | the same for microseconds with scale 1_000_000 |
| Duration.CheckedAdd | modules/embassy-preempt-executor/src/os_time/duration.rs:93-95 | `None` exactly when the sum exceeds u64::MAX, otherwise the sum |
| Duration.Add | modules/embassy-preempt-executor/src/os_time/duration.rs:101-103 | panics exactly when `checked_add` is `None`, otherwise the sum |
| Instant.Bounds | modules/embassy-preempt-executor/src/os_time/instant.rs:16-18 | `MIN` (0) and `MAX` (u64::MAX) bound every instant |
| Instant.AsTicks | modules/embassy-preempt-executor/src/os_time/instant.rs:34-36 | `as_ticks` is the inverse of building an instant from ticks |
| Instant.CheckedAdd | modules/embassy-preempt-executor/src/os_time/instant.rs:30-32 | `None` exactly on u64 overflow; otherwise the later instant at the summed ticks |
| Instant.Add | modules/embassy-preempt-executor/src/os_time/instant.rs:42-45 | panics exactly on overflow, otherwise the summed ticks |
| Instant.AddAssociates | modules/embassy-preempt-executor/src/os_time/instant.rs:30-32 | adding a sum of durations equals adding them one after the other, overflow included |
| Timer.Timer.At | modules/embassy-preempt-executor/src/os_time/timer.rs:46-51 | `Timer::at`: the expiry is stored and the timer has not yielded |
| Timer.Timer.Poll | modules/embassy-preempt-executor/src/os_time/timer.rs:29-41 | ready iff it yielded before and the expiry has passed; otherwise pending with a wake-up at the expiry, and yielded |
| Timer.After | modules/embassy-preempt-executor/src/os_time/timer.rs:66-71 | panics exactly on instant overflow; otherwise a fresh timer at now + duration |
| Timer.AfterTicks | modules/embassy-preempt-executor/src/os_time/timer.rs:78-80 | the same for a tick count |
| Timer.AfterMicros | modules/embassy-preempt-executor/src/os_time/timer.rs:96-98 | the same for `from_micros` of the count |
| Timer.AfterMillis | modules/embassy-preempt-executor/src/os_time/timer.rs:105-111 | the same for `from_millis` of the count |
| Timer.AfterSecs | modules/embassy-preempt-executor/src/os_time/timer.rs:118-120 | the same for `from_secs` of the count |
| Timer.FirstPollPending | modules/embassy-preempt-executor/src/os_time/timer.rs:29-41 | the first poll of a fresh timer is always pending, even if it is already due; the second is ready iff due |
| MemoryLayout.StackSize | modules/embassy-preempt-platform/src/traits/memory_layout.rs:46-48 | the stack region holds the interrupt stack and, with any programs, at least one task stack |
| MemoryLayout.HeapStart | modules/embassy-preempt-platform/src/traits/memory_layout.rs:54-56 | the heap starts at or after the stack start |
| MemoryLayout.RegionsAdjacent | modules/embassy-preempt-platform/src/traits/memory_layout.rs:39-56 | the heap starts right after the stack region; the regions are disjoint and cover everything from the stack start to the heap start |
| MemoryLayout.ConcreteLayouts | modules/embassy-preempt-platform/src/arm/chip/stm32f401re/platform.rs:423-443 | the STM32F401RE heap occupies 0x2001_1000..0x2001_3800; the CH32V307 heap starts at 0x2001_6800 |
| OsCore.Inc8 | modules/embassy-preempt-executor/src/os_task.rs:75 | `fetch_add(1)` on the u8 task counter: +1, wrapping 255 to 0 |
| OsCore.Dec8 | modules/embassy-preempt-executor/src/os_task.rs:306 | `fetch_sub(1)`: -1, wrapping 0 to 255 |
| OsCore.DecInc | modules/embassy-preempt-executor/src/os_task.rs:75 | decrement undoes increment and increment undoes decrement, wrap-around included |
| OsCore.OsGlobals.constructor | modules/embassy-preempt-cfg/src/ucosii.rs:726-741 | the kernel globals start at zero and not running |
| OsCore.OsGlobals.InitMisc | embassy_preempt/src/os_core.rs:538-564 | `OS_InitMisc` clears the nesting counters, task count, switch and idle counters and the running flag |
| OsCore.OsGlobals.IncTaskCtr | modules/embassy-preempt-executor/src/os_task.rs:75 | the task counter becomes `Inc8` of its old value |
| OsCore.OsGlobals.DecTaskCtr | modules/embassy-preempt-executor/src/os_task.rs:306 | the task counter becomes `Dec8` of its old value |
| ReadyList.PrioSplit | modules/embassy-preempt-executor/src/task.rs:240-242 | `OSTCBY = prio >> 3` and `OSTCBX = prio & 7` are in range and give the priority back |
| ReadyList.SamePrio | modules/embassy-preempt-executor/src/task.rs:240-242 | two priorities with the same row and column are equal, both directions |
| ReadyList.HighestReadyPrioIsMinimum | modules/embassy-preempt-executor/src/lib.rs:165-175 | on a consistent bitmap the lookup yields the idle priority iff nothing is ready, otherwise a ready priority no greater than any ready one |
| ReadyList.HighestReadyPrioBound | modules/embassy-preempt-executor/src/lib.rs:165-175 | the group lookup indexes an existing row and the result is a valid priority |
| ReadyList.SetBitSpec | modules/embassy-preempt-executor/src/lib.rs:130-141 | OR-ing bit i sets exactly bit i |
| ReadyList.ClearBitSpec | modules/embassy-preempt-executor/src/lib.rs:176-189 | AND-ing with the complement of bit i clears exactly bit i |
| ReadyList.InsertSpec | modules/embassy-preempt-executor/src/lib.rs:130-141 | setting priority p's bits keeps the group consistent and adds exactly p to the ready set |
| ReadyList.InsertGroup | modules/embassy-preempt-executor/src/lib.rs:130-141 | setting p's row bit and group bit keeps every group bit equal to "row non-zero" |
| ReadyList.RemoveSpec | modules/embassy-preempt-executor/src/lib.rs:176-189 | clearing p's column bit, and the group bit only when the row empties, keeps the group consistent and removes exactly p |
| Task.DefaultRef | modules/embassy-preempt-executor/src/task.rs:338-345 | `OS_TCB_REF::default()` names no task |
| Task.NewTcb | modules/embassy-preempt-executor/src/task.rs:164-215 | a fresh TCB: no stack, priority fields zero, not spawned, no stack save, register table zeroed |
| Task.NewTcbLegacy | embassy_preempt/src/executor/mod.rs:208-253 | the older fresh TCB: the same, but `is_in_thread_poll` starts true |
| Task.WithPrio | modules/embassy-preempt-executor/src/task.rs:240-244 | the priority fields are set consistently for the new priority; every other field is kept |
| Task.ShiftIsDivision | modules/embassy-preempt-executor/src/task.rs:241-242 | on u8, `>> 3` is division by 8 and `& 7` is the remainder |
| Task.ZeroRegTbl | modules/embassy-preempt-executor/src/task.rs:280-284 | the register table keeps its length and is all zero; nothing else changes |
| Task.Spawn | modules/embassy-preempt-executor/src/task.rs:246-248 | `OSTCBStat.spawn()` succeeds iff the TCB was not spawned, and leaves it spawned |
| Task.InitStorage | modules/embassy-preempt-executor/src/task.rs:220-248 | `init` panics iff the storage is already spawned; otherwise the TCB is well formed at the given priority and spawned |
| Task.FreshSpawnSucceeds | modules/embassy-preempt-executor/src/task.rs:246-248 | fresh storage (newer or older) always spawns; a second spawn fails until a poll that completes despawns it |
| Task.TakeStk | modules/embassy-preempt-executor/src/task.rs:135-137 | `take_stk` panics iff there is no stack; otherwise returns it and leaves none |
| Task.SetStk | modules/embassy-preempt-executor/src/task.rs:139-141 | `set_stk` installs the stack, so `is_stk_none` is false; nothing else changes |
| Task.SetThenTake | modules/embassy-preempt-executor/src/task.rs:135-145 | taking a stack just set returns it and leaves the TCB with no stack |
| Task.AfterPoll | modules/embassy-preempt-executor/src/task.rs:294-311 | a poll that returns Ready despawns the TCB; a pending one changes nothing |
| Executor.EnqueueState | modules/embassy-preempt-executor/src/lib.rs:130-141 | the writes of `enqueue` are the insertion of the task's priority, and they keep both table invariants |
| Executor.EnqueueBits | modules/embassy-preempt-executor/src/lib.rs:130-141 | OR-ing the TCB's BitX into row Y and BitY into the group is inserting its priority |
| Executor.UnreadyKeeps | modules/embassy-preempt-executor/src/lib.rs:176-189 | clearing a ready bit keeps "every ready priority names a task" |
| Executor.UnreadyBits | modules/embassy-preempt-executor/src/lib.rs:176-189 | the TCB's own bits clear its priority exactly as the removal specification does |
| Executor.UnreadyState | modules/embassy-preempt-executor/src/lib.rs:176-189 | `set_task_unready` keeps the group consistent and removes exactly the task's priority |
| Executor.HighRdyHasTask | modules/embassy-preempt-executor/src/lib.rs:143-159 | on consistent tables the highest ready priority names a task of that priority |
| Executor.ClearedHasTask | modules/embassy-preempt-executor/src/os_task.rs:290-310 | emptying a table entry whose priority is no longer ready keeps the table invariant |
| Executor.MoveHasTask | modules/embassy-preempt-executor/src/os_task.rs:215-233 | moving a task between table entries keeps the table invariant when only the new priority became ready |
| Executor.SyncExecutor.constructor | modules/embassy-preempt-executor/src/lib.rs:101-117 | `SyncExecutor::new`: nothing ready, empty table, both priorities idle, no task, empty timer queue |
| Executor.SyncExecutor.SetCurHighRdy | modules/embassy-preempt-executor/src/lib.rs:122-126 | the high-ready priority and task become the current ones |
| Executor.SyncExecutor.Enqueue | modules/embassy-preempt-executor/src/lib.rs:130-141 | the bitmap becomes the insertion of the task's priority, the table points at the task, and exactly that priority becomes ready |
| Executor.SyncExecutor.SetTaskUnready | modules/embassy-preempt-executor/src/lib.rs:176-189 | the bitmap becomes the removal of the task's priority and exactly that priority stops being ready; the invariants are kept |
| Executor.SyncExecutor.SetTcb | modules/embassy-preempt-executor/src/task.rs:280-284 | writing TCB fields other than the priority keeps the table invariants |
| Executor.SyncExecutor.MoveTask | modules/embassy-preempt-executor/src/os_task.rs:215-239 | the task moves from entry `from` to `to` with its priority fields rewritten; `from` leaves the ready set and `to` enters it iff `from` was ready |
| Executor.SyncExecutor.TaskReady | modules/embassy-preempt-executor/src/os_task.rs:222 | the bit test is true iff the task's priority is ready |
| Executor.SyncExecutor.Vacate | modules/embassy-preempt-executor/src/os_task.rs:215-229 | entry `from` empties, no entry names the task any more, and its priority leaves the ready set iff it was ready |
| Executor.SyncExecutor.Attach | modules/embassy-preempt-executor/src/os_task.rs:216-233 | the task enters the free entry `to`, and becomes ready there iff it was ready |
| Executor.SyncExecutor.Reprio | modules/embassy-preempt-executor/src/os_task.rs:235-239 | the TCB gets the priority fields of `to`, everything else kept |
| Executor.SyncExecutor.FindHighRdyPrio | modules/embassy-preempt-executor/src/lib.rs:165-175 | the idle priority when nothing is ready, otherwise the numerically smallest ready priority |
| Executor.SyncExecutor.SetHighRdy | modules/embassy-preempt-executor/src/lib.rs:143-159 | the high-ready priority is the lookup result and the high-ready task is its table entry |
| Executor.SyncExecutor.SetHighRdyWithPrio | modules/embassy-preempt-executor/src/lib.rs:160-164 | the high-ready priority is the given one and the task is its table entry |
| Executor.SyncExecutor.PrioExist | modules/embassy-preempt-executor/src/lib.rs:191-195 | true iff the entry holds a task or a reservation; a free entry is not ready |
| Executor.SyncExecutor.ReserveBit | modules/embassy-preempt-executor/src/lib.rs:197-202 | only that entry changes, to the reservation, so `prio_exist` reads true |
| Executor.SyncExecutor.ClearBit | modules/embassy-preempt-executor/src/lib.rs:203-208 | only that entry changes, to null, so `prio_exist` reads false |
| Executor.SyncExecutor.Unlist | modules/embassy-preempt-executor/src/os_task.rs:290-310 | the task at p stops being ready and its entry empties |
| Executor.SyncExecutor.Unqueue | modules/embassy-preempt-executor/src/os_task.rs:298-323 | the expiry becomes u64::MAX and the task leaves the timer queue, the others keeping their order |
| Executor.SyncExecutor.Delete | modules/embassy-preempt-executor/src/os_task.rs:290-323 | a deleted task leaves the table, the ready set and the timer queue; the TCB is replaced |
| Executor.SyncExecutor.Resume | modules/embassy-preempt-executor/src/os_time/mod.rs:167-185 | the task at p becomes ready; its expiry becomes u64::MAX and it leaves the timer queue while every other delayed task stays queued in order (`Unqueued`); the table is unchanged |
| Executor.UnqueuedKeepsOthers | modules/embassy-preempt-executor/src/os_task.rs:298-323 | after one task is unqueued, every other queued task is still queued with its expiry |
| Executor.SyncExecutor.IntCtxSw | modules/embassy-preempt-executor/src/lib.rs:268-298 | a switch happens iff no interrupt, no lock and a higher-priority task is ready; then the high-ready pair is that ready priority and its task, otherwise unchanged |
| Executor.SyncExecutor.IntCtxSwLegacy | embassy_preempt/src/executor/mod.rs:528-546 | the older decision: the same comparison without the interrupt and lock checks |
| Executor.SyncExecutor.PrintReadyQueue | modules/embassy-preempt-executor/src/lib.rs:212-226 | the reported priorities are exactly the ready ones, in increasing order |
| Executor.SyncExecutor.WakeAll | modules/embassy-preempt-executor/src/lib.rs:486-493 | waking the dequeued tasks adds exactly their priorities to the ready set |
| Executor.SyncExecutor.InitTcb | modules/embassy-preempt-executor/src/task.rs:220-292 | claiming storage and `init`: a new TCB slot at the priority, spawned, without stack, in the table and ready; returns `OS_ERR_NONE` |
| Event.EmptyWaitList | embassy_preempt/src/event/mod.rs:99-106 | the cleared wait list is consistent |
| Event.EmptyWaitListHasNoWaiters | embassy_preempt/src/event/mod.rs:99-106 | nobody waits on a cleared wait list |
| Event.NewEcb | embassy_preempt/src/event/mod.rs:86-96 | a fresh event block has a consistent, empty wait list |
| Event.RdyPrio | embassy_preempt/src/event/mod.rs:261-266 | the `OSUnMapTbl` lookup on the wait list gives a valid priority |
| Event.RdyPrioIsHighestWaiting | embassy_preempt/src/event/mod.rs:261-266 | on a non-empty consistent wait list the lookup is a waiting priority no greater than any waiting one |
| Event.WaitMaskedSpec | embassy_preempt/src/event/mod.rs:284-297 | corrected `OS_EventTaskWait`: the wait list stays consistent and exactly p is added |
| Event.RemoveMaskedSpec | embassy_preempt/src/event/mod.rs:301-311 | corrected `OS_EventTaskRemove`: the wait list stays consistent and exactly p is removed |
| Event.WaitThenRdy | embassy_preempt/src/event/mod.rs:259-297 | a priority numerically below every current waiter, once it waits, is the one `OS_EventTaskRdy` picks |
| Event.WaitThenRemoveRow | embassy_preempt/src/event/mod.rs:295-306 | row-level round trip: removing a just-added priority restores the table |
| Event.WaitThenRemoveGroup | embassy_preempt/src/event/mod.rs:295-308 | group-level round trip: removing a just-added priority restores the group |
| Event.WaitThenRemove | embassy_preempt/src/event/mod.rs:284-311 | wait then remove restores the wait list exactly |
| Event.AsWrittenWaitLosesTask | embassy_preempt/src/event/mod.rs:295-296 | as written, priority 9 waiting sets the bits of priority 0, so readying picks 0, not 9; the corrected form picks 9 |
| Event.AsWrittenWaitHidesPrioZero | embassy_preempt/src/event/mod.rs:295-296 | as written, priority 0 waiting leaves the wait list empty; the corrected form records it |
| Event.PushChained | embassy_preempt/src/event/mod.rs:237-245 | pushing a claimed block that is not free on the free list keeps the list well chained |
| Event.PopChained | embassy_preempt/src/event/mod.rs:201-235 | popping the head keeps the list well chained, and the head's link names the next free block |
| Event.UpdateChained | embassy_preempt/src/event/mod.rs:137-149 | writing a block that is not on the free list, or keeping its kind and link, keeps the chain |
| Event.TableOrder | embassy_preempt/src/event/mod.rs:178-199 | the free order after `init` is slots 0..OS_MAX_EVENTS in order |
| Event.TableOrderChained | embassy_preempt/src/event/mod.rs:178-199 | a table of unused blocks each linked to the next is a well-chained free list in table order |
| Event.EventPool.constructor | embassy_preempt/src/event/mod.rs:171-176 | `EventPool::new`: no free list, nothing claimed |
| Event.EventPool.Init | embassy_preempt/src/event/mod.rs:178-199 | every block is claimed, unused and linked to the next; the free list is the whole table in order; counts and wait lists of claimed blocks are kept |
| Event.EventPool.ClaimAll | embassy_preempt/src/event/mod.rs:247-254 | every unclaimed slot gets a fresh block; claimed ones are kept |
| Event.EventPool.Chain | embassy_preempt/src/event/mod.rs:178-199 | linking the claimed blocks in table order makes the free list the whole table |
| Event.EventPool.LinkInOrder | embassy_preempt/src/event/mod.rs:178-199 | each block becomes unused and linked to the next slot, its wait list kept |
| Event.EventPool.Alloc | embassy_preempt/src/event/mod.rs:201-235 | `None` iff the free list is empty (nothing changes); otherwise the head is returned and popped, with count 0 and an empty wait list |
| Event.EventPool.Free | embassy_preempt/src/event/mod.rs:237-245 | the block becomes unused, links to the old head and heads the free list |
| Event.EventPool.SetWait | embassy_preempt/src/event/mod.rs:137-149 | only that block's wait list changes |
| Event.EventPool.SetCount | embassy_preempt/src/event/mod.rs:137-149 | only that block's count changes |
| Event.EventPool.SetUse | embassy_preempt/src/event/mod.rs:137-149 | only that block's kind, count and link change |
| Event.EventPool.WaitListInit | embassy_preempt/src/event/mod.rs:99-106 | the block's wait list is cleared and nobody waits on it; nothing else changes |
| Event.EventPool.InUseNotFree | embassy_preempt/src/event/mod.rs:201-245 | a block in use is never on the free list |
| Event.TaskWait | embassy_preempt/src/event/mod.rs:284-297 | the running task stops being ready and exactly its priority joins the block's wait list |
| Event.TaskRemove | embassy_preempt/src/event/mod.rs:301-311 | exactly the task's priority leaves the wait list; nothing else changes |
| Event.TaskRdy | embassy_preempt/src/event/mod.rs:259-280 | corrected `OS_EventTaskRdy`: picks the highest waiting priority; panics iff no task is at it; otherwise that priority becomes ready, leaves the wait list, and its task leaves the timer queue with expiry u64::MAX while the other delayed tasks stay queued in order (`Unqueued`); a panic changes nothing |
| Event.TaskRdyAsWritten | embassy_preempt/src/event/mod.rs:259-280 | `OS_EventTaskRdy` as written: the same choice and panic; the priority becomes ready and leaves the wait list, the expiry becomes u64::MAX, but the task stays linked, its queue position now holding u64::MAX |
| Event.StaleEntryBlocks | embassy_preempt/src/executor/timer_queue.rs:65-98 | with an entry set to u64::MAX left in the queue, `dequeue_expired` stops at or before it whatever the time |
| Event.UnlinkedDueWoken | embassy_preempt/src/executor/timer_queue.rs:65-98 | with the readied task unlinked, every other queued task whose expiry has passed is in the prefix `dequeue_expired` wakes |
| Event.ReadiedTaskBlocksQueue | embassy_preempt/src/executor/timer_queue.rs:65-98 | tasks at 5 and 7, the first readied as written: at tick 10 nothing is woken; unlinked as intended, the task at 7 is woken |
| OsSem.Create | modules/embassy-preempt-event/src/os_sem.rs:11-33 | in an interrupt it returns null and changes nothing; an empty pool panics; otherwise the head block becomes a semaphore with the count and nobody waiting |
| OsSem.Accept | modules/embassy-preempt-event/src/os_sem.rs:37-52 | null panics; a non-semaphore returns 0; otherwise returns the old count and decrements it when positive |
| OsSem.Take | modules/embassy-preempt-event/src/os_sem.rs:41-51 | the body on a non-null reference, as above |
| OsSem.ReadyStep | modules/embassy-preempt-event/src/os_sem.rs:95-97 | one loop step panics iff no task is at the highest waiting priority `RdyPrio`; otherwise exactly that priority leaves the wait list and joins the ready set, and its task leaves the timer queue (`Unqueued`); a panic changes nothing |
| OsSem.ReadyAll | modules/embassy-preempt-event/src/os_sem.rs:94-97 | the loop ends with an empty wait list; the ready set becomes the old one plus exactly the removed waiters, and exactly their tasks leave the timer queue, the rest staying in order with their expiries (`QueueLeft`); a panic (a waiter without a task) needs a non-empty wait list |
| OsSem.QueueLeftStep | modules/embassy-preempt-event/src/os_sem.rs:95-97 | one more readied task leaving the timer queue extends the account: its expiry is u64::MAX and the other entries keep their order |
| OsSem.ReadyWaiters | modules/embassy-preempt-event/src/os_sem.rs:82-97 | `ALWAYS` readies every waiter; `NO_PEND` frees only an empty wait list and changes nothing here; either way the ready set becomes the old one plus the waiters and exactly their tasks leave the timer queue |
| OsSem.Del | modules/embassy-preempt-event/src/os_sem.rs:56-120 | `OSSemDel`: the refusals in source order; `NO_PEND` frees only without waiters; `ALWAYS` readies every waiter, frees the block and reschedules when tasks were waiting; on success the ready set is exactly the old one plus the waiters, and exactly their tasks leave the timer queue |
| OsSem.Release | modules/embassy-preempt-event/src/os_sem.rs:83-109 | the freeing branches: the ready set becomes exactly the old one plus the waiters and their tasks leave the timer queue; the block goes back on the free list with count 0; the scheduler runs when tasks waited |
| OsSem.FreeSem | modules/embassy-preempt-event/src/os_sem.rs:86-92 | the block goes back on the free list with its count cleared |
| OsSem.DelRefusal | modules/embassy-preempt-event/src/os_sem.rs:58-113 | the error is `OS_ERR_NONE` iff the block is freed; the type and ISR errors come first |
| OsSem.Pend | modules/embassy-preempt-event/src/os_sem.rs:123-154 | a positive count is decremented; otherwise the task joins the wait list and, outside an interrupt and the lock, gets the `Delayed` effect for the timeout with the high-ready pair and switch recomputed; both paths return `OS_ERR_NONE`, and the refusals change nothing |
| OsSem.Block | modules/embassy-preempt-event/src/os_sem.rs:147-149 | the running task joins the wait list; with no interrupt or lock nesting, the `Delayed` effect for the timeout, the highest ready priority selected and a switch iff it differs |
| OsSem.Post | modules/embassy-preempt-event/src/os_sem.rs:157-184 | with waiters the highest is readied (the exact ready set, and it leaves the timer queue as `Unqueued` says) and the scheduler runs; otherwise the count rises unless at 65535 (`OS_ERR_SEM_OVF`) |
| OsSem.Signal | modules/embassy-preempt-event/src/os_sem.rs:170-174 | the highest waiter leaves the wait list, joins the ready set exactly and leaves the timer queue (`Unqueued`); the switch decision follows |
| OsSem.Count | modules/embassy-preempt-event/src/os_sem.rs:176-181 | the count rises by one below 65535, otherwise `OS_ERR_SEM_OVF` and no change |
| OsTask.Reschedule | modules/embassy-preempt-executor/src/os_task.rs:137-144 | the switch decision of `IntCtxSW` (newer or older form) is made and recorded |
| OsTask.InitTask | modules/embassy-preempt-executor/src/os_task.rs:115-153 | `OS_ERR_TASK_CREATE_ISR` in an interrupt, `OS_ERR_PRIO_EXIST` if taken (both change nothing), otherwise the task is created ready and the scheduler runs when the kernel runs |
| OsTask.SyncTaskCreate | modules/embassy-preempt-executor/src/os_task.rs:44-77 | an invalid priority is refused with nothing changed; otherwise a non-null `_ptos` gives its 128-byte block back, panicking iff `_ptos` is 128 (the block would start at null); then the counter is incremented (newer crate only) and `init_task` decides the error |
| OsTask.AsyncTaskCreate | modules/embassy-preempt-executor/src/os_task.rs:80-98 | the `_ptos` release with the same panic, the counter increment (newer crate only), then `init_task` |
| OsTask.RevokeAddr | modules/embassy-preempt-executor/src/os_task.rs:66-67 | `_ptos.offset(-128)` in the 32-bit address space: `_ptos - 128` when that is not negative, and null exactly for `_ptos == 128` |
| OsTask.Revoked | modules/embassy-preempt-executor/src/os_task.rs:65-72 | the blocks given back: none for a null `_ptos`, otherwise exactly the 128-byte block, aligned to 4, below it |
| OsTask.RevokePtos | modules/embassy-preempt-executor/src/os_task.rs:65-72 | panics iff `_ptos` is 128 (`stk_from_ptr` of null); otherwise the free log gains exactly `Revoked(_ptos)`, the block given back once although `dealloc_stack` and the drop both run |
| OsTask.InitTaskIdle | embassy_preempt/src/os_core.rs:615-631 | the idle task is created at the idle priority, ready, iff not in an interrupt and the idle priority was free |
| OsTask.Target | modules/embassy-preempt-executor/src/os_task.rs:189-194 | `OS_PRIO_SELF` names the current priority, any other value itself |
| OsTask.ChangePrioSection | modules/embassy-preempt-executor/src/os_task.rs:183-244 | success iff the new priority is free and a task is at the old one (`OS_ERR_PRIO_EXIST` when the new one is taken); errors change nothing; on success the task moves, its readiness carried over, and `OSPrioCur` follows a running current task |
| OsTask.ChangePrio | modules/embassy-preempt-executor/src/os_task.rs:165-250 | the argument checks refuse with `OS_ERR_PRIO_INVALID`; `OS_ERR_PRIO_EXIST` when the new priority is taken; otherwise `OS_ERR_PRIO` iff no task is at the old one; errors change nothing; success is `PrioChanged` (the task, its readiness and its TCB fields move to the new priority, and `OSPrioCur` follows) and reschedules when the kernel runs |
| OsTask.ReleaseStack | modules/embassy-preempt-executor/src/os_task.rs:312-321 | when running, deleting another task frees its stack once (panics if it has none); deleting itself only clears `needs_stack_save` |
| OsTask.TaskDelSection | modules/embassy-preempt-executor/src/os_task.rs:276-330 | `OS_ERR_TASK_NOT_EXIST` iff no task is at the priority, with nothing changed; a panic iff the kernel runs and another task without a stack is deleted; success is `TaskDeleted`: the entry emptied, the priority no longer ready, the counter decremented, the task despawned with its register table cleared, unqueued with expiry u64::MAX, and its stack freed as `ReleaseStack` says |
| OsTask.TaskDel | modules/embassy-preempt-executor/src/os_task.rs:254-338 | the ISR, idle and argument refusals come first and change nothing; `OS_ERR_TASK_NOT_EXIST` iff no task is at the priority; a panic iff the kernel runs and the task deleted is another one that has no stack to free; success is `TaskDeleted` (entry emptied, priority not ready, counter decremented, task despawned and unqueued, stack freed as `ReleaseStack` says), then reschedule when running |
| OsTime.Suspend | modules/embassy-preempt-executor/src/os_time/mod.rs:28-33 | the expiry becomes now + ticks, exactly the task's priority stops being ready, and (unless the expiry is u64::MAX) the task is inserted at `FrontAtMost` of the old expiries, the rest of the queue kept in order; `update` returns the head expiry, at most the new one |
| OsTime.DueFront | modules/embassy-preempt-executor/src/timer_queue.rs:69-95 | on a sorted queue, the priorities of the prefix `dequeue_expired` takes are exactly `DuePrios`, the priorities of the tasks due by now |
| OsTime.NoneDue | modules/embassy-preempt-executor/src/os_time/mod.rs:35-61 | when the head expiry is after now (or the queue is empty) no queued task is due |
| OsTime.DueInsert | modules/embassy-preempt-executor/src/timer_queue.rs:24-56 | inserting a task with expiry t adds its priority to the due priorities iff t is at most now, and nothing else |
| OsTime.DueSuspended | modules/embassy-preempt-executor/src/os_time/mod.rs:28-33 | after `Suspend`, the due priorities grow by the suspended task's own priority exactly when it is due at once (zero ticks) |
| OsTime.Expire | modules/embassy-preempt-executor/src/lib.rs:249-266 | the ready set grows by exactly `DuePrios`, the priorities of the queued tasks due by now; every task left in the queue is due after now, and the tasks due later stay queued with their expiries |
| OsTime.Rearm | modules/embassy-preempt-executor/src/lib.rs:249-266 | after the callback the ready set has grown by exactly the due priorities, the alarm tracks the queue head and is in the future, and later tasks stay queued |
| OsTime.ArmAlarm | modules/embassy-preempt-executor/src/os_time/mod.rs:35-61 | a head not earlier than the set time changes nothing (queue, alarm, ready rows); an earlier head re-arms the alarm to track the queue, retrying `alarm_callback` until the alarm is in the future, and the ready set grows by exactly the due priorities |
| OsTime.DelayTick | modules/embassy-preempt-executor/src/os_time/mod.rs:24-72 | `Delayed`: the task is queued at now + ticks (a positive, finite delay), the alarm follows the queue, its priority leaves the ready set unless it is already due, tasks due by now are woken when the alarm had to be re-armed; then the high-ready pair is the highest ready priority and a switch happens iff it differs from the current one |
| OsTime.SuspendAndArm | modules/embassy-preempt-executor/src/os_time/mod.rs:24-61 | the queueing and alarm part of `delay_tick`: exactly the `Delayed` effect on the queue, the alarm and the ready set |
| OsTime.TimeDly | modules/embassy-preempt-executor/src/os_time/mod.rs:76-89 | does nothing in an interrupt or under the lock (newer crate); otherwise the `delay_tick` effect (`Delayed`), the highest ready priority selected and the switch iff it differs |
| OsTime.HmsmError | modules/embassy-preempt-executor/src/os_time/mod.rs:121-150 | the error `OSTimeDlyHMSM` returns, with its checks in source order |
| OsTime.HmsmMillisDecodes | modules/embassy-preempt-executor/src/os_time/mod.rs:152 | the millisecond total decodes back into hours, minutes, seconds and ms within range |
| OsTime.HmsmTicks | modules/embassy-preempt-executor/src/os_time/mod.rs:152-153 | the tick count of the total is floor(milliseconds * tick rate / 1000) |
| OsTime.TimeDlyHMSM | modules/embassy-preempt-executor/src/os_time/mod.rs:118-155 | returns `HmsmError`; errors change nothing; otherwise the `Delayed` effect for `HmsmTicks` of the total, with the switch decided as in `TimeDly` |
| OsTime.ResumeSection | modules/embassy-preempt-executor/src/os_time/mod.rs:167-185 | `OS_ERR_TASK_NOT_EXIST` iff no task; `OS_ERR_TIME_NOT_DLY` iff it is not delayed; errors change nothing; success makes it ready and unqueues it, the other delayed tasks staying queued in order (`Unqueued`) |
| OsTime.TimeDlyResume | modules/embassy-preempt-executor/src/os_time/mod.rs:160-196 | an invalid priority is refused; `OS_ERR_TASK_NOT_EXIST` iff no task; `OS_ERR_TIME_NOT_DLY` iff its expiry is u64::MAX or already before now; errors change nothing; success sets the expiry to u64::MAX, unlinks the task while the other delayed tasks stay queued in order (`Unqueued`), makes it ready, and reschedules when running |
| TimerQueue.FrontAtMost | modules/embassy-preempt-executor/src/timer_queue.rs:32-41 | the number of leading expiries at most a bound, within the queue: the insertion point of `update` and the count `dequeue_expired` takes |
| TimerQueue.FrontAtMostSpec | modules/embassy-preempt-executor/src/timer_queue.rs:32-41 | the search passes every expiry not later than the new one and stops at the first later one |
| TimerQueue.FrontAtMostUnique | modules/embassy-preempt-executor/src/timer_queue.rs:32-41 | any position with only expiries at most the bound before it and a later one (or the end) at it is that count |
| TimerQueue.InsertKeepsSorted | modules/embassy-preempt-executor/src/timer_queue.rs:24-56 | inserting at that position keeps the expiries sorted |
| TimerQueue.FrontAtMostSorted | modules/embassy-preempt-executor/src/timer_queue.rs:69-95 | on sorted expiries an entry is among the first `FrontAtMost` iff it is due |
| TimerQueue.LinkInsert | modules/embassy-preempt-executor/src/timer_queue.rs:43-52 | the link writes of `update` give the list with p inserted at its position |
| TimerQueue.LinkPopHead | modules/embassy-preempt-executor/src/timer_queue.rs:79-92 | the link writes of `dequeue_expired` give the list without its head |
| TimerQueue.LinkRemove | modules/embassy-preempt-executor/src/timer_queue.rs:117-131 | the link writes of `remove` give the list without that entry |
| TimerQueue.KeysInsert | modules/embassy-preempt-executor/src/timer_queue.rs:43-52 | the expiries read along the list after an insertion are the old ones with the new expiry at that position |
| TimerQueue.KeysPopHead | modules/embassy-preempt-executor/src/timer_queue.rs:79-92 | after the head leaves (its expiry reset), the expiries along the list are the old ones minus the first |
| TimerQueue.KeysRemove | modules/embassy-preempt-executor/src/timer_queue.rs:117-131 | after an entry leaves (its expiry changed), the expiries along the list are the old ones minus that position |
| TimerQueue.ClearedSnoc | modules/embassy-preempt-executor/src/timer_queue.rs:79 | waking one more task resets just its expiry to u64::MAX |
| TimerQueue.LinkStep | modules/embassy-preempt-executor/src/timer_queue.rs:32-41 | following `OSTimerNext`/`OSTimerPrev` from an entry reaches its neighbours |
| TimerQueue.ClearedSpec | modules/embassy-preempt-executor/src/timer_queue.rs:79 | the woken tasks' expiries become u64::MAX; the others are kept |
| TimerQueue.DequeueEnd | modules/embassy-preempt-executor/src/timer_queue.rs:72-76 | the loop stops exactly after the due prefix, and what remains is sorted and not yet due |
| TimerQueue.RemoveKeepsSorted | modules/embassy-preempt-executor/src/timer_queue.rs:98-132 | removing an entry keeps the others sorted |
| TimerQueue.DequeuedSplit | modules/embassy-preempt-executor/src/timer_queue.rs:69-95 | each queued task is either due, then dequeued with expiry u64::MAX, or not, then queued with its expiry kept |
| TimerQueue.TimerQueue.constructor | modules/embassy-preempt-executor/src/timer_queue.rs:15-20 | `TimerQueue::new`: empty, `set_time` u64::MAX, every slot unlinked with no expiry |
| TimerQueue.TimerQueue.AddSlot | modules/embassy-preempt-executor/src/task.rs:164-215 | a new TCB slot joins unlinked with expiry u64::MAX; the queue is unchanged |
| TimerQueue.TimerQueue.ScheduleWake | modules/embassy-preempt-executor/src/os_time/mod.rs:207-215 | the expiry becomes the minimum of the old one and the requested time |
| TimerQueue.TimerQueue.SetExpires | modules/embassy-preempt-executor/src/os_time/mod.rs:28 | only that expiry changes; the rest stays sorted |
| TimerQueue.TimerQueue.NextExpiration | modules/embassy-preempt-executor/src/timer_queue.rs:59-66 | u64::MAX when empty, otherwise the head's expiry, which is the earliest |
| TimerQueue.TimerQueue.Update | modules/embassy-preempt-executor/src/timer_queue.rs:24-56 | an expiry of u64::MAX is not linked and u64::MAX returned; otherwise the slot is inserted at its sorted position and the earliest expiry returned |
| TimerQueue.TimerQueue.FindSlot | modules/embassy-preempt-executor/src/timer_queue.rs:32-41 | the loop ends at the insertion point: `cur` is the entry there and `prev` the one before |
| TimerQueue.TimerQueue.LinkAt | modules/embassy-preempt-executor/src/timer_queue.rs:43-52 | the slot is linked between `prev` and `cur` |
| TimerQueue.TimerQueue.Unlink | modules/embassy-preempt-executor/src/timer_queue.rs:117-131 | the entry leaves the list, its links cleared, the head moving when it was first |
| TimerQueue.TimerQueue.DequeueExpired | modules/embassy-preempt-executor/src/timer_queue.rs:69-95 | the woken tasks are exactly the due prefix, in order; the rest stays queued and not due; woken expiries become u64::MAX |
| TimerQueue.TimerQueue.PopExpired | modules/embassy-preempt-executor/src/timer_queue.rs:69-95 | the dequeue proper, with the due prefix length |
| TimerQueue.TimerQueue.PopWhileDue | modules/embassy-preempt-executor/src/timer_queue.rs:72-94 | the loop pops due heads until the head is later than now |
| TimerQueue.TimerQueue.PopHead | modules/embassy-preempt-executor/src/timer_queue.rs:77-93 | the head leaves the list with expiry u64::MAX |
| TimerQueue.TimerQueue.Remove | modules/embassy-preempt-executor/src/timer_queue.rs:98-132 | a task not queued leaves everything unchanged; otherwise it leaves the list, the others keeping order and staying sorted |
| TimerQueue.TimerQueue.Find | modules/embassy-preempt-executor/src/timer_queue.rs:102-115 | the search finds the task iff it is queued |
| TimeDriver.NewAlarmState | modules/embassy-preempt-platform/src/traits/timer.rs:154-160 | a new alarm has timestamp u64::MAX, a null callback and a null context |
| TimeDriver.CalcNow | modules/embassy-preempt-platform/src/arm/chip/stm32f401re/timer_driver.rs:614-616 | `calc_now` lies in the period's window; even periods add the counter, odd ones add it with the top bit flipped |
| TimeDriver.XorTopBitIsAdd | modules/embassy-preempt-platform/src/arm/chip/stm32f401re/timer_driver.rs:615 | XOR-ing the top bit of a u16 is adding 2^15 modulo 2^16 |
| TimeDriver.CalcNowTracksTime | modules/embassy-preempt-platform/src/stm32f401re/timer_driver.rs:214-244 | when the period counts overflows and half-overflows, `calc_now` is exactly the elapsed ticks |
| TimeDriver.OverflowOnlyLosesTime | modules/embassy-preempt-platform/src/arm/chip/stm32f401re/timer_driver.rs:498-528 | with overflow-only counting, 131072 elapsed ticks read as 65536 |
| TimeDriver.Prescaler | modules/embassy-preempt-platform/src/arm/chip/stm32f401re/timer_driver.rs:280-284 | `init`'s prescaler: panics on a zero quotient (u32 underflow) or one over 65536, otherwise quotient - 1 |
| TimeDriver.AhbPrescaler | modules/embassy-preempt-platform/src/stm32f401re/timer_driver.rs:533-545 | HPRE 8..11 divide by 2..16, 12..15 by 64..512, anything else by 1 |
| TimeDriver.SysClk | modules/embassy-preempt-platform/src/stm32f401re/timer_driver.rs:513-530 | HSE gives 8 MHz, HSI or unknown 16 MHz; the PLL path panics iff PLLM is 0; the `u32` product `vco_input * plln` wraps modulo 2^32 as the release build does, so the result fits `u32` and is exact when the product fits |
| TimeDriver.SysClkWraps | modules/embassy-preempt-platform/src/stm32f401re/timer_driver.rs:520-527 | from HSI with PLLM 1, PLLN 300 overflows and gives 252516352 Hz; PLLN 268 still fits |
| TimeDriver.ApbHz | modules/embassy-preempt-platform/src/stm32f401re/timer_driver.rs:512-546 | the APB frequency is the system clock divided by the AHB prescaler: never above it, equal when undivided |
| TimeDriver.RccInitClock | modules/embassy-preempt-platform/src/stm32f401re/timer_driver.rs:413-457 | the clock set-up gives 84 MHz, so the 100 kHz tick prescaler is 839 |
| TimeDriver.StoredApbHz | modules/embassy-preempt-platform/src/arm/chip/stm32f401re/timer_driver.rs:556-565 | `get_APBfreq` panics iff the stored frequency is 0 |
| TimeDriver.PeriodEnables | modules/embassy-preempt-platform/src/arm/chip/stm32f401re/timer_driver.rs:358-380 | after a period tick an alarm's interrupt is enabled iff it was, or it is due within 0xc000 ticks of the period start |
| TimeDriver.RtcDriver.constructor | modules/embassy-preempt-platform/src/arm/chip/stm32f401re/timer_driver.rs:241-250 | period 0, no alarm allocated, every alarm new, interrupts off |
| TimeDriver.RtcDriver.Now | modules/embassy-preempt-platform/src/arm/chip/stm32f401re/timer_driver.rs:404-411 | `now` (via `calc_now`) lies within the current period's 2^16-tick window |
| TimeDriver.RtcDriver.AllocateAlarm | modules/embassy-preempt-platform/src/arm/chip/stm32f401re/timer_driver.rs:413-425 | the next handle while fewer than three are taken, otherwise `None` and no change |
| TimeDriver.RtcDriver.SetAlarmCallback | modules/embassy-preempt-platform/src/arm/chip/stm32f401re/timer_driver.rs:427-434 | only that alarm's callback and context change |
| TimeDriver.RtcDriver.SetAlarm | modules/embassy-preempt-platform/src/arm/chip/stm32f401re/timer_driver.rs:436-497 | true iff the timestamp is u64::MAX or still in the future at the recheck; a refused alarm is cleared; other alarms are untouched |
| TimeDriver.RtcDriver.NextPeriod | modules/embassy-preempt-platform/src/arm/chip/stm32f401re/timer_driver.rs:358-380 | the period rises by one, wrapping at 2^32 as the release build's `+` does, and the alarm enables follow `PeriodEnables` |
| TimeDriver.RtcDriver.TriggerAlarm | modules/embassy-preempt-platform/src/arm/chip/stm32f401re/timer_driver.rs:388-400 | the alarm is cleared to u64::MAX and its callback and context are returned |
| TimeDriver.RtcDriver.OnInterrupt | modules/embassy-preempt-platform/src/arm/chip/stm32f401re/timer_driver.rs:498-528 | the period counts the overflow and, where counted, the half-overflow, modulo 2^32; exactly the flagged and enabled alarms fire, in index order |
| StackAllocator.BlockHeap.constructor | modules/embassy-preempt-executor/src/mem/heap/stack_allocator.rs:22 | an uninitialised allocator with no allocations or frees |
| StackAllocator.BlockHeap.Init | modules/embassy-preempt-executor/src/mem/heap/stack_allocator.rs:42 | the region is set, the logs are kept |
| StackAllocator.BlockHeap.Alloc | modules/embassy-preempt-executor/src/mem/heap/stack_allocator.rs:68 | the allocation is logged and the allocator's pointer returned |
| StackAllocator.BlockHeap.Dealloc | modules/embassy-preempt-executor/src/mem/heap/stack_allocator.rs:85 | the freed block is logged |
| StackAllocator.StkRef.Default | modules/embassy-preempt-executor/src/mem/heap/stack_allocator.rs:114-122 | both pointers dangling, layout (0, 1), owns nothing |
| StackAllocator.StkRef.Of | modules/embassy-preempt-executor/src/mem/heap/stack_allocator.rs:90-100 | the three fields as given |
| StackAllocator.StkRef.AsPtr | modules/embassy-preempt-executor/src/mem/heap/stack_allocator.rs:138-142 | an owning reference yields a real address |
| StackAllocator.StkRef.Clone | modules/embassy-preempt-executor/src/mem/heap/stack_allocator.rs:103-111 | a fresh reference with the same fields, owning iff the original does |
| StackAllocator.StkRef.DeallocStack | modules/embassy-preempt-executor/src/mem/heap/stack_allocator.rs:75-87 | an owning reference frees its block once and becomes dangling; otherwise nothing changes |
| StackAllocator.StkRef.Drop | modules/embassy-preempt-executor/src/mem/heap/stack_allocator.rs:124-136 | the same as `dealloc_stack` |
| StackAllocator.StkFromPtr | modules/embassy-preempt-executor/src/mem/heap/stack_allocator.rs:144-150 | panics iff the pointer is null; otherwise the heap pointer and the stack top `ptr + size` |
| StackAllocator.AllocStack | modules/embassy-preempt-executor/src/mem/heap/stack_allocator.rs:63-73 | logs the allocation and builds the reference as `stk_from_ptr` |
| StackAllocator.DeallocThenDrop | modules/embassy-preempt-executor/src/mem/heap/stack_allocator.rs:75-136 | `dealloc_stack` followed by the drop frees the block at most once |
| StackAllocator.CloneThenDropBoth | modules/embassy-preempt-executor/src/mem/heap/stack_allocator.rs:103-136 | dropping an owning reference and its clone frees the same block twice |
| StackAllocator.StackCells.constructor | modules/embassy-preempt-executor/src/mem/heap/stack_allocator.rs:23-30 | the program and interrupt stacks start as distinct default references |
| StackAllocator.InitStackAllocator | modules/embassy-preempt-executor/src/mem/heap/stack_allocator.rs:38-61 | the region is set, two 2048-byte stacks are allocated, and the program stack pointer moves to the program stack; a null allocation panics |
| StackAllocator.InitStackAllocatorLegacy | embassy_preempt/src/heap/stack_allocator.rs:33-52 | the older initialisation: the same allocations and cells, but the interrupt cell gets a clone and the original is dropped, so the interrupt stack's block is logged as freed while the cell still owns it |
| Futures.ButtonState.constructor | modules/embassy-preempt-platform/src/arm/driver/button/driver.rs:45-67 | no press latched, no waker |
| Futures.ButtonState.GetPressed | modules/embassy-preempt-platform/src/arm/driver/button/driver.rs:51-53 | returns the latched press and clears it |
| Futures.ButtonState.RegisterWaker | modules/embassy-preempt-platform/src/arm/driver/button/driver.rs:61-67 | the waker becomes the polling task |
| Futures.ButtonFuture.constructor | modules/embassy-preempt-platform/src/driver/button/future.rs:13-24 | a new future has not yielded |
| Futures.ButtonFuture.Poll | modules/embassy-preempt-platform/src/driver/button/future.rs:29-54 | ready iff a press was latched (always consumed); only a first pending poll registers the waker |
| Futures.PollWithoutPress | modules/embassy-preempt-platform/src/driver/button/future.rs:29-54 | n polls without a press register the waker once and never complete |
| Futures.TaskSlot.constructor | embassy_preempt/src/port/bottom_driver/mod.rs:155-165 | no task recorded |
| Futures.TaskSlot.SetTask | embassy_preempt/src/port/bottom_driver/mod.rs:160-165 | the task is recorded |
| Futures.OneShot.WaitForRisingEdge | modules/embassy-preempt-port/src/bottom_driver/Bottom.rs:30-34 | a new `bottom` has not yielded and keeps the driver it is given |
| Futures.OneShot.WaitForPress | embassy-preempt-platform/src/button.rs:32-37 | a new `Button` has not yielded and keeps its driver |
| Futures.OneShot.Poll | modules/embassy-preempt-port/src/bottom_driver/Bottom.rs:15-24 | the first poll hands the task to the driver and is pending; later polls are ready and leave the driver alone |
| Futures.PollOneShot | embassy-preempt-platform/src/button.rs:16-27 | n polls tell the driver once; the last is ready iff n >= 2 |

## Left out

- Executor.SyncExecutor.InitTcb: does not panic when the arena is full, because the model's task slots are unbounded; `claim`'s allocation failure is not modelled. `Task.InitStorage` still models the spawn panic.
- `EventPool::alloc`'s unreachable `claim` branch and its branches for a non-`UNUSED` head are left out. Under the pool invariant the free list holds only unused, claimed blocks.
- `OSTCBEventPtr` is not modelled. Nothing in the core reads it back.
- Event.TaskWait, Event.TaskRemove: these use the corrected masks (see Findings), not the column and row indices the source ORs in.
- The clock reading `now` is one value per call. The hardware counter can move between reads, so the source may see two readings; `TimeDriver.RtcDriver.SetAlarm` does take two.
- The context switch itself (`interrupt_poll`, PendSV, stack save and restore), the idle loop and `run_idle` are architecture code and are not part of this model.
- OsTime.Suspend, OsTime.DelayTick, OsSem.Pend: `now + ticks` must fit in u64. The source's addition would overflow.
- Timer.AfterMicros, Timer.AfterMillis, Timer.AfterSecs, Duration.FromSecs: the product must fit in u64. The source's `const` multiplication would overflow.
- OsSem.Pend: the blocking path requires a running task that is not already in the timer queue (`CanDelay`), as `delay_tick` assumes.
- OsTime.TimeDly, OsTime.TimeDlyHMSM: outside an interrupt and the lock they require `CanDelay`: a running task not already queued, and `now + ticks` within u64. A second delay of a queued task would link it twice.
- OsTime.TimeDlyHMSM: the millisecond total times the tick rate must fit in u64, as the source's multiplication would overflow otherwise.
- Duration.FromMillis, Duration.FromMicros, Timer.AfterMillis, Timer.AfterMicros: the reduced product plus the rounding term of `div_ceil` must fit in u64. The source's arithmetic would overflow.
- Duration.FromMillisFloor, Duration.FromMicrosFloor: the reduced product must fit in u64.
- OsTime.DelayTick, OsTime.TimeDly, OsSem.Block: the executor invariant does not tie the timer queue to the priority table, so two queued slots may carry one priority; `Delayed` therefore allows the delayed priority to be readied again by a due task of the same priority; it is not ready afterwards unless some task at it is due.
- OsTask.ChangePrio, OsTask.ChangePrioSection: when the new priority is free, the old one must resolve to a valid priority. With the kernel not yet running, `OS_PRIO_SELF` stays 255, and without argument checks an out-of-range priority indexes past the table (a panic).
- OsTask.ChangePrio, OsTask.TaskDel, OsTime.TimeDlyResume: these require that no table entry holds the creation reservation. The source reserves an entry only inside `init_task`.
- OsTask.TaskDel: without argument checks the priority must be valid or `OS_PRIO_SELF`. Any other value indexes past the table.
- OsTask.TaskDelSection: the writes are grouped differently from the source; the final state is the same.
- modules/embassy-preempt-event/src/lib.rs is not part of this model.
- The atomics in `state_atomics` are modelled as plain booleans (`spawned`).
- The `p_arg` argument is only handed to the task body and is absent here. So are task names and `OSTime`.
- Only the misc-variable part of `OSInit` is modelled (`OsCore.OsGlobals.InitMisc`); the rest calls hardware and logging.
- `ALARM_COUNT` is fixed at 3, the TIM2..TIM5 value.
- `AlarmHandle::new` and `id` are the identity and need no member.
- Logging, critical sections, interrupt masking and concurrency are not modelled; every operation runs atomically.
- The ARM HAL's clock computation (`store_clock_config`) is not modelled; only its stored result is read.
- The fixed-size block allocator behind the stack allocator is not modelled. It is a log of allocations and frees, and the address it returns is a parameter.

- TimeDriver.SysClk: models the release build, where `vco_input * plln` wraps; a debug build panics on that overflow instead, which is not modelled.

## Findings

| source | as written | input that shows it | evidently intended | confidence | as-written member | corrected member |
|---|---|---|---|---|---|---|
| modules/embassy-preempt-executor/src/mem/arena.rs:72-79 | rollback only when `ptr - size` equals the bump pointer | free the block just allocated: its end, not its start minus its size, is the bump pointer, so the free panics | rollback when `ptr + size` is the bump pointer (the newest block) | not executed | Arena.AsWrittenRefusesNewestBlock | Arena.LifoRoundTrip |
| embassy_preempt/src/event/mod.rs:295-296 | the wait list ORs in `OSTCBX`/`OSTCBY` (indices); `OS_EventTaskRemove` clears with them too (304-306) | priority 9 waits: bits of priority 0 are set, so the post readies priority 0; priority 0 waiting sets nothing | OR in `OSTCBBitX`/`OSTCBBitY` (masks) | not executed | Event.AsWrittenWaitLosesTask | Event.WaitThenRemove |
| modules/embassy-preempt-platform/src/arm/chip/stm32f401re/timer_driver.rs:516-519 | the half-overflow `next_period` is commented out, while `calc_now` assumes a period per 2^15 ticks | 131072 elapsed ticks read as 65536 | count a period at the overflow and the half-overflow, as the older copies do | not executed | TimeDriver.OverflowOnlyLosesTime | TimeDriver.CalcNowTracksTime |
| embassy_preempt/src/event/mod.rs:273-279 | the readied task's `expires_at` is set to u64::MAX, but the task stays linked in the timer queue | tasks A at tick 5 and B at tick 7 are queued; A is readied by a post; at tick 10 `dequeue_expired` stops at A's u64::MAX entry and B is never woken | unlink the task from the timer queue, as `OSTimeDlyResume` does | not executed | Event.ReadiedTaskBlocksQueue | Event.TaskRdy |
| embassy_preempt/src/heap/stack_allocator.rs:47-49 | the interrupt cell is set to `stk.clone()`, and `stk` itself is dropped when the function returns | any successful initialisation: the interrupt stack's block goes back to the allocator while `INTERRUPT_STACK` still owns it | move the reference into the cell, as the newer `OS_InitStackAllocator` does | not executed | StackAllocator.InitStackAllocatorLegacy | StackAllocator.InitStackAllocator |

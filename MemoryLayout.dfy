/**
 * The platform memory layout (`traits/memory_layout.rs`): the stack region
 * holds the interrupt stack and one program stack per task, and the heap
 * starts right after it.  A platform supplies five numbers; the trait's
 * default methods derive the rest.
 */
module MemoryLayout {
  /** The five numbers a platform supplies. */
  datatype Layout = Layout(
    stackStart: nat,
    maxPrograms: nat,
    heapSize: nat,
    programStackSize: nat,
    interruptStackSize: nat)

  /** The STM32F401RE platform (`arm/chip/stm32f401re/platform.rs`). */
  const STM32F401RE: Layout := Layout(0x2000_B800, 10, 10 * 1024, 2048, 2048)

  /** The CH32V307 platform (`qingke/chip/ch32v307wcu6/platform.rs`). */
  const CH32V307: Layout := Layout(0x2000_B800, 10, 10 * 1024, 4096, 4096)

  /** `get_task_stack_size`: one task stack is one program stack. */
  function TaskStackSize(l: Layout): nat
  {
    l.programStackSize
  }

  /** `calculate_stack_size`: the interrupt stack plus max_programs program stacks. */
  function StackSize(l: Layout): (r: nat)
    ensures r >= l.interruptStackSize
    ensures l.maxPrograms > 0 ==> r >= l.interruptStackSize + TaskStackSize(l)
  {
    l.interruptStackSize + l.programStackSize * l.maxPrograms
  }

  /** `get_heap_start`. */
  function HeapStart(l: Layout): (r: nat)
    ensures r >= l.stackStart
  {
    l.stackStart + StackSize(l)
  }

  /** Addresses of the stack region and of the heap region. */
  predicate InStackRegion(l: Layout, a: nat)
  {
    l.stackStart <= a < l.stackStart + StackSize(l)
  }

  predicate InHeapRegion(l: Layout, a: nat)
  {
    HeapStart(l) <= a < HeapStart(l) + l.heapSize
  }

  /**
   * The heap begins exactly where the stack region ends: the two regions are
   * adjacent, do not overlap, and the stack region has room for the interrupt
   * stack and max_programs task stacks.
   */
  lemma RegionsAdjacent(l: Layout, a: nat)
    ensures HeapStart(l) - l.stackStart == l.interruptStackSize + l.maxPrograms * TaskStackSize(l)
    ensures !(InStackRegion(l, a) && InHeapRegion(l, a))
    ensures l.stackStart <= a < HeapStart(l) ==> InStackRegion(l, a)
  {
  }

  /** The concrete layouts: where the heap starts and where it ends, within 32-bit addresses. */
  lemma ConcreteLayouts()
    ensures HeapStart(STM32F401RE) == 0x2001_1000
    ensures HeapStart(STM32F401RE) + STM32F401RE.heapSize == 0x2001_3800
    ensures HeapStart(CH32V307) == 0x2001_6800
    ensures HeapStart(CH32V307) + CH32V307.heapSize < 0x1_0000_0000
  {
  }
}

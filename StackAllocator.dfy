/**
 * Task stacks (`heap/stack_allocator.rs`, and its newer copy
 * `mem/heap/stack_allocator.rs`).  An `OS_STK_REF` either owns a heap block,
 * with `HEAP_REF` at its bottom and `STK_REF` at its top, or owns nothing, with
 * both references dangling.  Freeing a reference (`dealloc_stack`, or `Drop`)
 * gives the block back once and leaves both references dangling, so a second
 * free is a no-op.  The block allocator behind it is not part of this model: it
 * is seen only through the addresses it hands out (parameters here) and the log
 * of blocks given back to it.
 */
module StackAllocator {
  import opened Wrappers

  const STACK_START: nat := 0x2000_0000
  const STACK_SIZE: nat := 20 * 1024
  const PROGRAM_STACK_SIZE: nat := 2048
  const INTERRUPT_STACK_SIZE: nat := 2048
  const TASK_STACK_SIZE: nat := PROGRAM_STACK_SIZE

  /** `NonNull`: dangling, or a real (non-zero) address. */
  datatype Ptr = Dangling | At(addr: nat)

  /** `Layout`: the size and alignment of a block. */
  datatype StkLayout = StkLayout(size: nat, align: nat)

  /** A block as the allocator sees it on `dealloc`. */
  datatype Block = Block(addr: nat, layout: StkLayout)

  /** The block allocator's side of the story: its region and what it was asked. */
  class BlockHeap {
    var region: Option<(nat, nat)>
    var allocs: seq<StkLayout>
    var frees: seq<Block>

    constructor ()
      ensures region == None && allocs == [] && frees == []
    {
      region := None;
      allocs := [];
      frees := [];
    }

    /** `STACK_ALLOCATOR.lock().init(start, size)`. */
    method Init(start: nat, size: nat)
      modifies this
      ensures region == Some((start, size)) && allocs == old(allocs) && frees == old(frees)
    {
      region := Some((start, size));
    }

    /** `STACK_ALLOCATOR.alloc(layout)`: the answer is `heapPtr`, chosen by the allocator. */
    method Alloc(layout: StkLayout, heapPtr: nat) returns (p: nat)
      modifies this
      ensures p == heapPtr
      ensures region == old(region) && allocs == old(allocs) + [layout] && frees == old(frees)
    {
      allocs := allocs + [layout];
      p := heapPtr;
    }

    /** `STACK_ALLOCATOR.dealloc(ptr, layout)`. */
    method Dealloc(b: Block)
      modifies this
      ensures region == old(region) && allocs == old(allocs) && frees == old(frees) + [b]
    {
      frees := frees + [b];
    }
  }

  /** `OS_STK_REF`. */
  class StkRef {
    var stk: Ptr
    var heap: Ptr
    var layout: StkLayout

    /** The reference owns a block: neither pointer is dangling. */
    predicate Owns()
      reads this
    {
      stk.At? && heap.At?
    }

    /** `Default`: both references dangling and a size-0, align-1 layout. */
    constructor Default()
      ensures stk == Dangling && heap == Dangling && layout == StkLayout(0, 1)
      ensures !Owns()
    {
      stk := Dangling;
      heap := Dangling;
      layout := StkLayout(0, 1);
    }

    constructor Of(stk: Ptr, heap: Ptr, layout: StkLayout)
      ensures this.stk == stk && this.heap == heap && this.layout == layout
    {
      this.stk := stk;
      this.heap := heap;
      this.layout := layout;
    }

    /** `as_ptr`: the bottom of the block. */
    function AsPtr(): (p: Ptr)
      reads this
      ensures Owns() ==> p.At?
    {
      heap
    }

    /** `Clone`: a second reference to the same block, with the same layout. */
    method Clone() returns (c: StkRef)
      ensures fresh(c)
      ensures c.stk == stk && c.heap == heap && c.layout == layout
      ensures c.Owns() == Owns()
    {
      c := new StkRef.Of(stk, heap, layout);
    }

    /**
     * `dealloc_stack`: a reference that owns nothing is left alone; otherwise its
     * block is given back once and both references become dangling.
     */
    method DeallocStack(h: BlockHeap)
      modifies this, h
      ensures layout == old(layout) && !Owns()
      ensures h.region == old(h.region) && h.allocs == old(h.allocs)
      ensures old(Owns()) ==> stk == Dangling && heap == Dangling &&
                              h.frees == old(h.frees) + [Block(old(heap).addr, layout)]
      ensures !old(Owns()) ==> stk == old(stk) && heap == old(heap) && h.frees == old(h.frees)
    {
      if stk == Dangling || heap == Dangling {
        return;
      }
      var ptr := heap.addr;
      stk := Dangling;
      heap := Dangling;
      h.Dealloc(Block(ptr, layout));
    }

    /** `Drop`: the same guard and the same single free as `dealloc_stack`. */
    method Drop(h: BlockHeap)
      modifies this, h
      ensures layout == old(layout) && !Owns()
      ensures h.region == old(h.region) && h.allocs == old(h.allocs)
      ensures old(Owns()) ==> stk == Dangling && heap == Dangling &&
                              h.frees == old(h.frees) + [Block(old(heap).addr, layout)]
      ensures !old(Owns()) ==> stk == old(stk) && heap == old(heap) && h.frees == old(h.frees)
    {
      if stk == Dangling || heap == Dangling {
        return;
      }
      var ptr := heap.addr;
      stk := Dangling;
      heap := Dangling;
      h.Dealloc(Block(ptr, layout));
    }
  }

  /**
   * `stk_from_ptr`: `HEAP_REF` is the block's address and `STK_REF` its top,
   * address plus size.  A null address makes `NonNull::new(..).unwrap()` panic.
   */
  method StkFromPtr(heapPtr: nat, layout: StkLayout) returns (r: Outcome<StkRef>)
    ensures r.Panic? <==> heapPtr == 0
    ensures r.Done? ==> fresh(r.value) && r.value.Owns() &&
                        r.value.heap == At(heapPtr) &&
                        r.value.stk == At(heapPtr + layout.size) &&
                        r.value.layout == layout
  {
    if heapPtr == 0 {
      r := Panic("called `Option::unwrap()` on a `None` value");
    } else {
      var s := new StkRef.Of(At(heapPtr + layout.size), At(heapPtr), layout);
      r := Done(s);
    }
  }

  /** `alloc_stack`: ask the allocator for a block, and wrap its address. */
  method AllocStack(h: BlockHeap, layout: StkLayout, heapPtr: nat) returns (r: Outcome<StkRef>)
    modifies h
    ensures h.region == old(h.region) && h.allocs == old(h.allocs) + [layout] && h.frees == old(h.frees)
    ensures r.Panic? <==> heapPtr == 0
    ensures r.Done? ==> fresh(r.value) && r.value.Owns() &&
                        r.value.heap == At(heapPtr) &&
                        r.value.stk == At(heapPtr + layout.size) &&
                        r.value.layout == layout
  {
    var p := h.Alloc(layout, heapPtr);
    r := StkFromPtr(p, layout);
  }

  /**
   * Freeing is idempotent: `dealloc_stack`, again `dealloc_stack`, then the drop
   * give the block back exactly once, and nothing if the reference owned nothing.
   */
  method DeallocThenDrop(s: StkRef, h: BlockHeap)
    modifies s, h
    ensures !s.Owns()
    ensures old(s.Owns()) ==> h.frees == old(h.frees) + [Block(old(s.heap).addr, old(s.layout))]
    ensures !old(s.Owns()) ==> h.frees == old(h.frees)
  {
    s.DeallocStack(h);
    s.DeallocStack(h);
    s.Drop(h);
  }

  /**
   * `Clone` copies the ownership: when the original and its clone are both
   * dropped, the same block is given back twice.
   */
  method CloneThenDropBoth(s: StkRef, h: BlockHeap)
    requires s.Owns()
    modifies s, h
    ensures var b := Block(old(s.heap).addr, old(s.layout));
            h.frees == old(h.frees) + [b, b]
  {
    var c := s.Clone();
    s.Drop(h);
    c.Drop(h);
  }

  /** The `PROGRAM_STACK` and `INTERRUPT_STACK` cells, and the program stack pointer. */
  class StackCells {
    var program: StkRef
    var interrupt: StkRef
    var programSp: Option<nat>

    /** Both cells start as `OS_STK_REF::default()`. */
    constructor ()
      ensures !program.Owns() && !interrupt.Owns() && programSp == None
      ensures fresh(program) && fresh(interrupt) && program != interrupt
    {
      program := new StkRef.Default();
      interrupt := new StkRef.Default();
      programSp := None;
    }
  }

  /**
   * `OS_InitStackAllocator` (newer copy): hand the region to the allocator,
   * allocate the program stack, install it and point the program stack pointer
   * at its top, then allocate the interrupt stack and install it.  The cells'
   * default values are dropped on replacement, which frees nothing.  The two
   * addresses are the allocator's answers.
   */
  method InitStackAllocator(cells: StackCells, h: BlockHeap, progPtr: nat, intPtr: nat)
    returns (r: Outcome<()>)
    requires !cells.program.Owns() && !cells.interrupt.Owns()
    modifies cells, cells.program, cells.interrupt, h
    ensures h.region == Some((STACK_START, STACK_SIZE))
    ensures r.Panic? <==> progPtr == 0 || intPtr == 0
    ensures r.Done? ==>
              h.allocs == old(h.allocs) + [StkLayout(PROGRAM_STACK_SIZE, 4), StkLayout(INTERRUPT_STACK_SIZE, 4)] &&
              cells.program.Owns() && cells.program.heap == At(progPtr) &&
              cells.programSp == Some(progPtr + PROGRAM_STACK_SIZE) &&
              cells.interrupt.Owns() && cells.interrupt.heap == At(intPtr) &&
              h.frees == old(h.frees)
  {
    h.Init(STACK_START, STACK_SIZE);
    var prog := AllocStack(h, StkLayout(PROGRAM_STACK_SIZE, 4), progPtr);
    if prog.Panic? {
      return Panic(prog.reason);
    }
    var sp := prog.value.stk.addr;
    cells.program.Drop(h);
    cells.program := prog.value;
    cells.programSp := Some(sp);
    var irq := AllocStack(h, StkLayout(INTERRUPT_STACK_SIZE, 4), intPtr);
    if irq.Panic? {
      return Panic(irq.reason);
    }
    cells.interrupt.Drop(h);
    cells.interrupt := irq.value;
    r := Done(());
  }

  /**
   * `init_stack_allocator` (older copy) as written: the interrupt cell receives a
   * clone of the new stack reference, and the original is dropped when the
   * function returns.  The interrupt stack's block is thereby given back to the
   * allocator while the interrupt cell still refers to it as its own.
   */
  method InitStackAllocatorLegacy(cells: StackCells, h: BlockHeap, progPtr: nat, intPtr: nat)
    returns (r: Outcome<()>)
    requires !cells.program.Owns() && !cells.interrupt.Owns()
    modifies cells, cells.program, cells.interrupt, h
    ensures h.region == Some((STACK_START, STACK_SIZE))
    ensures r.Panic? <==> progPtr == 0 || intPtr == 0
    ensures r.Done? ==>
              h.allocs == old(h.allocs) + [StkLayout(PROGRAM_STACK_SIZE, 4), StkLayout(INTERRUPT_STACK_SIZE, 4)] &&
              cells.program.Owns() && cells.program.heap == At(progPtr) &&
              cells.programSp == Some(progPtr + PROGRAM_STACK_SIZE) &&
              cells.interrupt.Owns() && cells.interrupt.heap == At(intPtr) &&
              h.frees == old(h.frees) + [Block(intPtr, StkLayout(INTERRUPT_STACK_SIZE, 4))]
  {
    h.Init(STACK_START, STACK_SIZE);
    var prog := AllocStack(h, StkLayout(PROGRAM_STACK_SIZE, 4), progPtr);
    if prog.Panic? {
      return Panic(prog.reason);
    }
    var sp := prog.value.stk.addr;
    cells.program.Drop(h);
    cells.program := prog.value;
    cells.programSp := Some(sp);
    var irq := AllocStack(h, StkLayout(INTERRUPT_STACK_SIZE, 4), intPtr);
    if irq.Panic? {
      return Panic(irq.reason);
    }
    var copy := irq.value.Clone();
    cells.interrupt.Drop(h);
    cells.interrupt := copy;
    irq.value.Drop(h);
    r := Done(());
  }
}

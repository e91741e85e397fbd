/**
 * The bump arena that holds the task storage (`arena.rs`, and its newer copy
 * `mem/arena.rs`).  The arena owns a buffer of N bytes at address `start` and a
 * bump pointer that is null until the first allocation.  Addresses are natural
 * numbers and the null pointer is 0; the type of the allocated value is
 * represented by its size and alignment.
 */
module Arena {
  import opened Wrappers
  import Arith

  /** `usize::next_multiple_of`: the one multiple of `align` in [p, p + align). */
  function NextMultipleOf(p: nat, align: nat): (r: nat)
    requires align > 0
    ensures r % align == 0 && p <= r < p + align
  {
    if p % align == 0 then p
    else
      Arith.MultipleAfter(p, align);
      p + (align - p % align)
  }

  /** An aligned address is its own next multiple. */
  lemma NextMultipleOfAligned(p: nat, align: nat)
    requires align > 0 && p % align == 0
    ensures NextMultipleOf(p, align) == p
  {
  }

  /** One allocation: the block's address and the bump pointer after it. */
  datatype Grant = Grant(addr: nat, next: nat)

  /**
   * The arithmetic of `alloc` from bump position `bump` in a buffer ending at
   * `end`: pad up to the alignment, then panic if padding plus size does not fit
   * in the bytes left.
   */
  function AllocFrom(bump: nat, end: nat, size: nat, align: nat): (r: Outcome<Grant>)
    requires align > 0 && bump <= end
    ensures r.Panic? <==> NextMultipleOf(bump, align) + size > end
    ensures r.Done? ==> r.value.addr % align == 0 && bump <= r.value.addr < bump + align
    ensures r.Done? ==> r.value.next == r.value.addr + size <= end
  {
    var left := end - bump;
    var pad := NextMultipleOf(bump, align) - bump;
    if pad + size > left then Panic("task arena is full")
    else Done(Grant(bump + pad, bump + pad + size))
  }

  /**
   * Two allocations in a row give disjoint blocks, the second above the first,
   * and the bump pointer never moves down.
   */
  lemma {:induction false} AllocDisjoint(bump: nat, end: nat, s1: nat, a1: nat, s2: nat, a2: nat)
    requires a1 > 0 && a2 > 0 && bump <= end
    requires AllocFrom(bump, end, s1, a1).Done?
    requires AllocFrom(AllocFrom(bump, end, s1, a1).value.next, end, s2, a2).Done?
    ensures var g1 := AllocFrom(bump, end, s1, a1).value;
            var g2 := AllocFrom(g1.next, end, s2, a2).value;
            bump <= g1.addr && g1.addr + s1 <= g2.addr && g2.addr + s2 == g2.next <= end
  {
  }

  /**
   * The rollback test of `dealloc` as written: the bump pointer `cur` (0 when
   * null) is set back to `addr` only when `addr - size == cur`.
   */
  function RollbackAsWritten(cur: nat, addr: nat, size: nat): (r: Option<nat>)
    ensures r.Some? <==> addr - size == cur
    ensures r.Some? ==> r.value == addr
  {
    if addr - size == cur then Some(addr) else None
  }

  /**
   * The test as written never accepts the most recent block unless it is empty:
   * right after an allocation of a non-zero size the rollback is refused.
   */
  lemma AsWrittenRefusesNewestBlock(bump: nat, end: nat, size: nat, align: nat)
    requires align > 0 && bump <= end && size > 0
    requires AllocFrom(bump, end, size, align).Done?
    ensures var g := AllocFrom(bump, end, size, align).value;
            RollbackAsWritten(g.next, g.addr, size).None?
  {
  }

  /** The evidently intended test: the block ends at the bump pointer. */
  function RollbackLifo(cur: nat, addr: nat, size: nat): (r: Option<nat>)
    ensures r.Some? <==> addr + size == cur
    ensures r.Some? ==> r.value == addr
  {
    if addr + size == cur then Some(addr) else None
  }

  /**
   * With the intended test, freeing the newest block rolls the bump pointer back
   * to it, and allocating the same layout again returns the same block.
   */
  lemma {:induction false} LifoRoundTrip(bump: nat, end: nat, size: nat, align: nat)
    requires align > 0 && bump <= end
    requires AllocFrom(bump, end, size, align).Done?
    ensures var g := AllocFrom(bump, end, size, align).value;
            RollbackLifo(g.next, g.addr, size) == Some(g.addr) &&
            AllocFrom(g.addr, end, size, align) == Done(g)
  {
    var g := AllocFrom(bump, end, size, align).value;
    NextMultipleOfAligned(g.addr, align);
  }

  /** The prefix of `blocks` that ends at or below address `a`. */
  ghost function Below(blocks: seq<(nat, nat)>, a: nat): (r: seq<(nat, nat)>)
    ensures r <= blocks
    ensures Sorted(blocks) ==> forall i :: 0 <= i < |r| ==> r[i].0 + r[i].1 <= a
  {
    if blocks == [] || blocks[|blocks| - 1].0 + blocks[|blocks| - 1].1 <= a then blocks
    else Below(blocks[..|blocks| - 1], a)
  }

  /** Blocks follow one another without overlap. */
  ghost predicate Sorted(blocks: seq<(nat, nat)>)
  {
    forall i, j :: 0 <= i < j < |blocks| ==> blocks[i].0 + blocks[i].1 <= blocks[j].0
  }

  class Arena {
    /** The buffer's address (never null) and its size N. */
    const start: nat
    const size: nat
    /** The bump pointer; 0 is null. */
    var ptr: nat
    /** The blocks handed out and not rolled back, in address order. */
    ghost var blocks: seq<(nat, nat)>

    function End(): nat reads this { start + size }

    /** Where the next allocation starts: the buffer start while the pointer is null. */
    function Bump(): nat reads this { if ptr == 0 then start else ptr }

    ghost predicate Valid()
      reads this
    {
      start > 0 &&
      (ptr != 0 ==> start <= ptr <= End()) &&
      Sorted(blocks) &&
      (forall i :: 0 <= i < |blocks| ==> start <= blocks[i].0 && blocks[i].0 + blocks[i].1 <= Bump())
    }

    /** `Arena::new`: the pointer starts null. */
    constructor (start: nat, size: nat)
      requires start > 0
      ensures this.start == start && this.size == size && ptr == 0
      ensures Valid() && blocks == []
    {
      this.start := start;
      this.size := size;
      ptr := 0;
      blocks := [];
    }

    /**
     * `alloc`: a block of `n` bytes aligned to `align`.  The first allocation
     * starts at the buffer start; the block lies in the buffer above all earlier
     * ones; the bump pointer advances by padding plus size; a block that does not
     * fit is a panic.
     */
    method Alloc(n: nat, align: nat) returns (r: Outcome<nat>)
      requires Valid() && align > 0
      modifies this
      ensures Valid()
      ensures var o := AllocFrom(old(Bump()), End(), n, align);
              (r.Panic? <==> o.Panic?) &&
              (r.Done? ==> r.value == o.value.addr && ptr == o.value.next &&
                           blocks == old(blocks) + [(r.value, n)])
      ensures r.Panic? ==> ptr == old(ptr) && blocks == old(blocks)
    {
      var p := ptr;
      if p == 0 {
        p := start;
      }
      var left := start + size - p;
      var pad := NextMultipleOf(p, align) - p;
      if pad + n > left {
        r := Panic("task arena is full");
        return;
      }
      var res := p + pad;
      ptr := p + pad + n;
      blocks := blocks + [(res, n)];
      r := Done(res);
    }

    /**
     * `dealloc` as written: panics on a null pointer or one at or past the buffer
     * end, and otherwise rolls back only when `addr - n` equals the bump pointer.
     * Only the bump pointer is written; the ghost log of blocks is left as it
     * was, since this version serves only to exhibit the wrong test.
     */
    method DeallocAsWritten(addr: nat, n: nat) returns (r: Outcome<()>)
      modifies this`ptr
      ensures addr == 0 || addr >= End() ==> r.Panic? && ptr == old(ptr)
      ensures 0 < addr < End() ==>
                match RollbackAsWritten(old(ptr), addr, n)
                case Some(q) => r.Done? && ptr == q
                case None => r.Panic? && ptr == old(ptr)
    {
      if addr == 0 || addr >= start + size {
        r := Panic("Invalid dealloc: Pointer is out of bounds or null.");
      } else if addr - n == ptr {
        ptr := addr;
        r := Done(());
      } else {
        r := Panic("Non-LIFO deallocation is not supported in this arena allocator.");
      }
    }

    /**
     * `dealloc` with the intended test: the newest block, the one ending at the
     * bump pointer, is given back and the bump pointer returns to its address.
     * The bounds check is the source's: a null pointer or one at or past the
     * buffer end panics.  An address below the buffer start passes it, and a
     * rollback to such an address leaves the bump pointer outside the buffer.
     */
    method Dealloc(addr: nat, n: nat) returns (r: Outcome<()>)
      requires Valid()
      modifies this
      ensures start <= addr || r.Panic? ==> Valid()
      ensures addr == 0 || addr >= End() ==> r.Panic? && ptr == old(ptr)
      ensures 0 < addr < End() ==>
                match RollbackLifo(old(ptr), addr, n)
                case Some(q) => r.Done? && ptr == q
                case None => r.Panic? && ptr == old(ptr)
      ensures r.Done? ==> blocks == Below(old(blocks), addr)
      ensures r.Panic? ==> blocks == old(blocks)
    {
      if addr == 0 || addr >= start + size {
        r := Panic("Invalid dealloc: Pointer is out of bounds or null.");
      } else if addr + n == ptr {
        ptr := addr;
        blocks := Below(blocks, addr);
        r := Done(());
      } else {
        r := Panic("Non-LIFO deallocation is not supported in this arena allocator.");
      }
    }
  }
}

/**
 * Event control blocks (`event/mod.rs` of the older crate; the newer
 * semaphore calls the same helpers): the `OS_EVENT` record, the pool of
 * `OS_MAX_EVENTS` blocks whose free list is threaded through `OSEventPtr`,
 * and the wait-list operations `OS_EventTaskWait`, `OS_EventTaskRemove` and
 * `OS_EventTaskRdy`.  A block is named by its index in the pool's table, as a
 * TCB is named by its slot.
 *
 * The wait list has the ready list's layout (`OS_EVENT_TBL_SIZE` equals
 * `OS_RDY_TBL_SIZE`).  The source ORs the positions `OSTCBX`/`OSTCBY` into it
 * where the masks `OSTCBBitX`/`OSTCBBitY` are meant; `WaitAsWritten` and the
 * lemmas after it record what that does, and the operations use the masks.
 */
module Event {
  import opened Wrappers
  import opened Config
  import opened Bitmap
  import opened ReadyList
  import opened Task
  import opened Executor
  import TQ = TimerQueue

  /** `OS_EVENT_TYPE`. */
  datatype EventType = Unused | Mbox | Queue | Sem | Mutex | Flag

  /** `OSEventGrp` and `OSEventTbl`: the priorities waiting for the event. */
  datatype WaitList = WaitList(grp: bv8, tbl: seq<bv8>)

  /**
   * `OS_EVENT`: its type, `OSEventPtr` (the next free block while the block
   * is free), the semaphore count and the wait list.
   */
  datatype Ecb = Ecb(kind: EventType, link: Option<nat>, cnt: u16, wait: WaitList)

  /** The group bit of row y is set iff row y is non-zero, as for the ready list. */
  ghost predicate WaitOk(w: WaitList)
  {
    GroupConsistent(w.grp, w.tbl)
  }

  /** The priorities whose bit is set in the wait list. */
  ghost function Waiting(w: WaitList): set<nat>
    requires |w.tbl| == OS_RDY_TBL_SIZE
  {
    ReadySet(w.tbl)
  }

  /** `OS_EventWaitListInit`'s result: group and every row zero, so nobody waits. */
  function EmptyWaitList(): (w: WaitList)
    ensures WaitOk(w)
  {
    WaitList(0, seq(OS_RDY_TBL_SIZE, _ => 0))
  }

  /** Nobody waits on a cleared wait list. */
  lemma EmptyWaitListHasNoWaiters()
    ensures Waiting(EmptyWaitList()) == {}
  {
    var w := EmptyWaitList();
    forall p: nat ensures !IsReady(w.tbl, p) {
      if p <= OS_LOWEST_PRIO {
        assert w.tbl[PrioY(p)] == 0;
      }
    }
  }

  /** `OS_EVENT::new()`: an unused block, no link, count 0, a cleared wait list. */
  function NewEcb(): (e: Ecb)
    ensures WaitOk(e.wait)
  {
    Ecb(Unused, None, 0, EmptyWaitList())
  }

  /** `OS_EventTaskRdy`'s choice: `(OSUnMapTbl[grp] << 3) + OSUnMapTbl[tbl[y]]`. */
  function RdyPrio(w: WaitList): (p: nat)
    requires |w.tbl| == OS_RDY_TBL_SIZE
    ensures p <= OS_LOWEST_PRIO
  {
    UnMapIsTrailingZeros(w.grp);
    var y := UnMap(w.grp) as nat;
    UnMapIsTrailingZeros(w.tbl[y]);
    8 * y + UnMap(w.tbl[y]) as nat
  }

  /**
   * On a consistent, non-empty wait list the choice is the highest waiting
   * priority: it waits, and no waiting priority is numerically smaller.
   */
  lemma RdyPrioIsHighestWaiting(w: WaitList)
    requires WaitOk(w) && w.grp != 0
    ensures RdyPrio(w) in Waiting(w)
    ensures forall q :: q in Waiting(w) ==> RdyPrio(w) <= q
  {
    HighestReadyPrioBound(w.grp, w.tbl);
    HighestReadyPrioIsMinimum(w.grp, w.tbl);
    UnMapIsTrailingZeros(w.grp);
    UnMapIsTrailingZeros(w.tbl[UnMap(w.grp) as nat]);
    assert RdyPrio(w) == HighestReadyPrio(w.grp, w.tbl);
  }

  /** Priority p waits: its masks `OSTCBBitY`/`OSTCBBitX` are ORed in. */
  function WaitMasked(w: WaitList, p: nat): (r: WaitList)
    requires |w.tbl| == OS_RDY_TBL_SIZE && p <= OS_LOWEST_PRIO
  {
    WaitList(InsertGrp(w.grp, p), InsertTbl(w.tbl, p))
  }

  /** Priority p stops waiting: its row bit is cleared, and its group bit once the row is empty. */
  function RemoveMasked(w: WaitList, p: nat): (r: WaitList)
    requires |w.tbl| == OS_RDY_TBL_SIZE && p <= OS_LOWEST_PRIO
  {
    WaitList(RemoveGrp(w.grp, w.tbl, p), RemoveTbl(w.tbl, p))
  }

  /** Waiting adds exactly p and keeps the list consistent. */
  lemma WaitMaskedSpec(w: WaitList, p: nat)
    requires WaitOk(w) && p <= OS_LOWEST_PRIO
    ensures WaitOk(WaitMasked(w, p)) && Waiting(WaitMasked(w, p)) == Waiting(w) + {p}
  {
    InsertSpec(w.grp, w.tbl, p);
  }

  /** Removing takes away exactly p and keeps the list consistent. */
  lemma RemoveMaskedSpec(w: WaitList, p: nat)
    requires WaitOk(w) && p <= OS_LOWEST_PRIO
    ensures WaitOk(RemoveMasked(w, p)) && Waiting(RemoveMasked(w, p)) == Waiting(w) - {p}
  {
    RemoveSpec(w.grp, w.tbl, p);
  }

  /** A task that waits with a better priority than every other waiter is the next one readied. */
  lemma WaitThenRdy(w: WaitList, p: nat)
    requires WaitOk(w) && p <= OS_LOWEST_PRIO
    requires forall q :: q in Waiting(w) ==> p < q
    ensures RdyPrio(WaitMasked(w, p)) == p
  {
    var w' := WaitMasked(w, p);
    WaitMaskedSpec(w, p);
    assert p in Waiting(w');
    HighestReadyPrioIsMinimum(w'.grp, w'.tbl);
    assert w'.grp != 0;
    RdyPrioIsHighestWaiting(w');
    var r := RdyPrio(w');
    assert r <= p;
    assert r !in Waiting(w);
    assert r in Waiting(w) + {p};
  }

  lemma OrThenClear(r: bv8, b: bv8)
    requires r & b == 0
    ensures (r | b) & !b == r
  {
  }

  lemma OrAbsorbs(g: bv8, b: bv8)
    requires g & b != 0 && b & (b - 1) == 0
    ensures g | b == g
  {
  }

  lemma BitIsPowerOfTwo(i: nat)
    requires i < 8
    ensures Bit(i) & (Bit(i) - 1) == 0
  {
  }

  /** The row half of `WaitThenRemove`. */
  lemma WaitThenRemoveRow(tbl: seq<bv8>, p: nat)
    requires |tbl| == OS_RDY_TBL_SIZE && p <= OS_LOWEST_PRIO && !IsReady(tbl, p)
    ensures RemoveTbl(InsertTbl(tbl, p), p) == tbl
  {
    PrioSplit(p);
    OrThenClear(tbl[PrioY(p)], Bit(PrioX(p)));
  }

  /** The group half of `WaitThenRemove`. */
  lemma WaitThenRemoveGroup(grp: bv8, tbl: seq<bv8>, p: nat)
    requires GroupConsistent(grp, tbl) && p <= OS_LOWEST_PRIO && !IsReady(tbl, p)
    ensures RemoveGrp(InsertGrp(grp, p), InsertTbl(tbl, p), p) == grp
  {
    PrioSplit(p);
    var y := PrioY(p);
    WaitThenRemoveRow(tbl, p);
    BitIsPowerOfTwo(y);
    if tbl[y] == 0 {
      assert !BitSet(grp, y);
      OrThenClear(grp, Bit(y));
    } else {
      assert BitSet(grp, y);
      OrAbsorbs(grp, Bit(y));
    }
  }

  /** Removing a task that was not waiting before undoes its wait, bit for bit. */
  lemma WaitThenRemove(w: WaitList, p: nat)
    requires WaitOk(w) && p <= OS_LOWEST_PRIO && p !in Waiting(w)
    ensures RemoveMasked(WaitMasked(w, p), p) == w
  {
    assert !IsReady(w.tbl, p);
    WaitThenRemoveRow(w.tbl, p);
    WaitThenRemoveGroup(w.grp, w.tbl, p);
  }

  /** `OS_EventTaskWait` as written: the positions `OSTCBX` and `OSTCBY` are ORed in. */
  function WaitAsWritten(w: WaitList, y: nat, x: nat): (r: WaitList)
    requires |w.tbl| == OS_RDY_TBL_SIZE && y < 8 && x < 8
  {
    WaitList(w.grp | y as bv8, w.tbl[y := w.tbl[y] | x as bv8])
  }

  /**
   * As written, a task of priority 9 (y = 1, x = 1) waiting on an empty list
   * sets group bit 0 and bit 0 of row 1, and `OS_EventTaskRdy` then decodes
   * priority 0 rather than 9.
   */
  lemma AsWrittenWaitLosesTask()
    ensures var w := WaitAsWritten(EmptyWaitList(), PrioY(9), PrioX(9));
            w.grp != 0 && RdyPrio(w) == 0 != 9
    ensures RdyPrio(WaitMasked(EmptyWaitList(), 9)) == 9
  {
    EmptyWaitListHasNoWaiters();
    var w := WaitAsWritten(EmptyWaitList(), PrioY(9), PrioX(9));
    assert w.grp == 1 && w.tbl[0] == 0;
    UnMapIsTrailingZeros(1);
    TrailingZerosSpec(1);
    LowestSetBitUnique(1, 0, TrailingZeros(1));
    WaitThenRdy(EmptyWaitList(), 9);
  }

  /**
   * As written, a task of priority 0 (y = 0, x = 0) leaves the wait list
   * unchanged, so `OSEventGrp` stays 0 and a post cannot see it.
   */
  lemma AsWrittenWaitHidesPrioZero()
    ensures WaitAsWritten(EmptyWaitList(), 0, 0) == EmptyWaitList()
    ensures Waiting(WaitMasked(EmptyWaitList(), 0)) == {0}
  {
    EmptyWaitListHasNoWaiters();
    WaitMaskedSpec(EmptyWaitList(), 0);
  }

  /** The entry after position j of a list, None after the last. */
  function Successor(s: seq<nat>, j: nat): (r: Option<nat>)
    requires j < |s|
    ensures r.Some? <==> j + 1 < |s|
  {
    if j + 1 < |s| then Some(s[j + 1]) else None
  }

  /**
   * `free` is a free list over the table: every block on it is claimed and
   * unused, each one's `OSEventPtr` names the next (None after the last), and
   * no block occurs twice.
   */
  ghost predicate Chained(events: seq<Ecb>, claimed: seq<bool>, free: seq<nat>)
  {
    |events| == OS_MAX_EVENTS && |claimed| == OS_MAX_EVENTS &&
    (forall j :: 0 <= j < |free| ==> free[j] < OS_MAX_EVENTS) &&
    (forall j :: 0 <= j < |free| ==> claimed[free[j]] && events[free[j]].kind == Unused) &&
    (forall j {:trigger Successor(free, j)} :: 0 <= j < |free| ==> events[free[j]].link == Successor(free, j)) &&
    forall a, b :: 0 <= a < b < |free| ==> free[a] != free[b]
  }

  /** Pushing an unlisted claimed block whose link names the old head keeps a free list. */
  lemma PushChained(events: seq<Ecb>, claimed: seq<bool>, free: seq<nat>, k: nat, e: Ecb)
    requires Chained(events, claimed, free) && k < OS_MAX_EVENTS && claimed[k] && k !in free
    requires e.kind == Unused && e.link == (if free == [] then None else Some(free[0]))
    ensures Chained(events[k := e], claimed, [k] + free)
  {
    var events', free' := events[k := e], [k] + free;
    forall j | 1 <= j < |free'|
      ensures free'[j] == free[j - 1] != k && events'[free'[j]] == events[free[j - 1]]
      ensures Successor(free', j) == Successor(free, j - 1)
    {
    }
    forall a, b | 0 <= a < b < |free'| ensures free'[a] != free'[b] {
      assert free'[b] == free[b - 1];
      if a > 0 {
        assert free'[a] == free[a - 1];
      }
    }
  }

  /** Popping the head leaves a free list, whatever is then written to the popped block. */
  lemma PopChained(events: seq<Ecb>, claimed: seq<bool>, free: seq<nat>, e: Ecb)
    requires Chained(events, claimed, free) && free != []
    ensures free[0] !in free[1..] && events[free[0]].link == (if |free| == 1 then None else Some(free[1]))
    ensures Chained(events[free[0] := e], claimed, free[1..])
  {
    var h, free' := free[0], free[1..];
    assert events[h].link == Successor(free, 0);
    forall j | 0 <= j < |free'|
      ensures free'[j] == free[j + 1] != h && events[h := e][free'[j]] == events[free[j + 1]]
      ensures Successor(free', j) == Successor(free, j + 1)
    {
      assert free[0] != free[j + 1];
    }
    forall a, b | 0 <= a < b < |free'| ensures free'[a] != free'[b] {
      assert free'[a] == free[a + 1] && free'[b] == free[b + 1];
    }
  }

  /** Rewriting a block that is off the list, or only its count and wait list, keeps a free list. */
  lemma UpdateChained(events: seq<Ecb>, claimed: seq<bool>, free: seq<nat>, k: nat, e: Ecb)
    requires Chained(events, claimed, free) && k < OS_MAX_EVENTS
    requires k !in free || (e.kind == events[k].kind && e.link == events[k].link)
    ensures Chained(events[k := e], claimed, free)
  {
    forall j | 0 <= j < |free|
      ensures events[k := e][free[j]].kind == events[free[j]].kind
      ensures events[k := e][free[j]].link == events[free[j]].link
    {
    }
  }

  /** The entries of the table in order, 0 to OS_MAX_EVENTS - 1. */
  function TableOrder(): (r: seq<nat>)
    ensures |r| == OS_MAX_EVENTS && forall i :: 0 <= i < |r| ==> r[i] == i
  {
    seq(OS_MAX_EVENTS, i => i)
  }

  /** Every block claimed, unused and linked to the next in table order: the whole table is a free list. */
  lemma TableOrderChained(events: seq<Ecb>, claimed: seq<bool>)
    requires |events| == OS_MAX_EVENTS && |claimed| == OS_MAX_EVENTS
    requires forall i :: 0 <= i < OS_MAX_EVENTS ==> claimed[i] && events[i].kind == Unused
    requires forall i :: 0 <= i < OS_MAX_EVENTS ==>
               events[i].link == if i + 1 < OS_MAX_EVENTS then Some(i + 1) else None
    ensures Chained(events, claimed, TableOrder())
  {
    var free := TableOrder();
    forall j | 0 <= j < |free|
      ensures free[j] == j && events[free[j]].link == Successor(free, j)
    {
    }
  }

  /**
   * `EventPool`: the table of `OS_MAX_EVENTS` blocks (`claimed[i]` says that
   * entry i holds a block from the arena) and the head of the free list.
   */
  class EventPool {
    var events: seq<Ecb>
    var claimed: seq<bool>
    var freeList: Option<nat>
    ghost var free: seq<nat>

    /**
     * Every wait list is consistent, a block in use has been claimed, and
     * `free` is the free list read from
     * the head `freeList` along `OSEventPtr`.
     */
    ghost predicate Valid()
      reads this
    {
      |events| == OS_MAX_EVENTS && |claimed| == OS_MAX_EVENTS &&
      (forall i :: 0 <= i < OS_MAX_EVENTS ==> WaitOk(events[i].wait)) &&
      (forall i :: 0 <= i < OS_MAX_EVENTS && events[i].kind != Unused ==> claimed[i]) &&
      freeList == (if free == [] then None else Some(free[0])) &&
      Chained(events, claimed, free)
    }

    /** `EventPool::new`: no block claimed, an empty free list. */
    constructor ()
      ensures Valid() && freeList == None && free == []
      ensures forall i :: 0 <= i < OS_MAX_EVENTS ==> !claimed[i]
    {
      events := seq(OS_MAX_EVENTS, _ => NewEcb());
      claimed := seq(OS_MAX_EVENTS, _ => false);
      freeList := None;
      free := [];
    }

    /**
     * `init`: every entry without a block gets a fresh one (`OS_EVENT::new`),
     * then all are marked unused and chained in table order, the last link
     * None, and the free list starts at entry 0.  A block that was already
     * claimed keeps its count and wait list.
     */
    method Init()
      requires Valid()
      modifies this
      ensures Valid() && freeList == Some(0) && free == TableOrder()
      ensures forall i :: 0 <= i < OS_MAX_EVENTS ==> claimed[i] && events[i].kind == Unused
      ensures forall i :: 0 <= i < OS_MAX_EVENTS ==>
                events[i].link == if i + 1 < OS_MAX_EVENTS then Some(i + 1) else None
      ensures forall i :: 0 <= i < OS_MAX_EVENTS ==>
                var e := if old(claimed[i]) then old(events[i]) else NewEcb();
                events[i].cnt == e.cnt && events[i].wait == e.wait
    {
      ClaimAll();
      Chain();
    }

    /** The first loop of `init`: claim a block for every empty entry. */
    method ClaimAll()
      requires |events| == OS_MAX_EVENTS && |claimed| == OS_MAX_EVENTS
      requires forall i :: 0 <= i < OS_MAX_EVENTS ==> WaitOk(events[i].wait)
      modifies this`events, this`claimed
      ensures |events| == OS_MAX_EVENTS && |claimed| == OS_MAX_EVENTS
      ensures forall i :: 0 <= i < OS_MAX_EVENTS ==> claimed[i] && WaitOk(events[i].wait)
      ensures forall i :: 0 <= i < OS_MAX_EVENTS ==>
                events[i] == if old(claimed[i]) then old(events[i]) else NewEcb()
    {
      for i := 0 to OS_MAX_EVENTS
        invariant |events| == OS_MAX_EVENTS && |claimed| == OS_MAX_EVENTS
        invariant forall j :: 0 <= j < OS_MAX_EVENTS ==> claimed[j] == (old(claimed[j]) || j < i)
        invariant forall j :: 0 <= j < OS_MAX_EVENTS ==> WaitOk(events[j].wait)
        invariant forall j :: 0 <= j < OS_MAX_EVENTS ==>
                    events[j] == if !old(claimed[j]) && j < i then NewEcb() else old(events[j])
      {
        if !claimed[i] {
          events := events[i := NewEcb()];
          claimed := claimed[i := true];
        }
      }
    }

    /** The second part of `init`: mark every block unused and chain them in table order. */
    method Chain()
      requires |events| == OS_MAX_EVENTS && |claimed| == OS_MAX_EVENTS
      requires forall i :: 0 <= i < OS_MAX_EVENTS ==> claimed[i] && WaitOk(events[i].wait)
      modifies this`events, this`freeList, this`free
      ensures Valid() && freeList == Some(0) && free == TableOrder()
      ensures forall i :: 0 <= i < OS_MAX_EVENTS ==>
                events[i] == old(events[i]).(kind := Unused, link := if i + 1 < OS_MAX_EVENTS then Some(i + 1) else None)
    {
      LinkInOrder();
      TableOrderChained(events, claimed);
      freeList := Some(0);
      free := TableOrder();
    }

    /** The loops of the second part of `init`, which write types and links. */
    method LinkInOrder()
      requires |events| == OS_MAX_EVENTS
      modifies this`events
      ensures |events| == OS_MAX_EVENTS
      ensures forall i :: 0 <= i < OS_MAX_EVENTS ==>
                events[i] == old(events[i]).(kind := Unused, link := if i + 1 < OS_MAX_EVENTS then Some(i + 1) else None)
      ensures forall i :: 0 <= i < OS_MAX_EVENTS ==>
                events[i].kind == Unused && events[i].wait == old(events[i]).wait &&
                events[i].link == if i + 1 < OS_MAX_EVENTS then Some(i + 1) else None
    {
      for i := 0 to OS_MAX_EVENTS - 1
        invariant |events| == OS_MAX_EVENTS
        invariant forall j :: 0 <= j < i ==> events[j] == old(events[j]).(kind := Unused, link := Some(j + 1))
        invariant forall j :: i <= j < OS_MAX_EVENTS ==> events[j] == old(events[j])
      {
        events := events[i := events[i].(kind := Unused, link := Some(i + 1))];
      }
      var last := OS_MAX_EVENTS - 1;
      events := events[last := events[last].(kind := Unused, link := None)];
    }

    /**
     * `alloc`: None on an empty free list; otherwise the head block, with
     * count and wait list zeroed, leaves the list and the list continues at
     * its `OSEventPtr`.
     */
    method Alloc() returns (r: Option<nat>)
      requires Valid()
      modifies this`events, this`freeList, this`free
      ensures Valid()
      ensures old(free) == [] <==> r == None
      ensures r == None ==> events == old(events) && freeList == old(freeList) && free == old(free)
      ensures r.Some? ==>
                r.value == old(free)[0] && free == old(free)[1..] && r.value !in free && claimed[r.value] &&
                events == old(events)[r.value := old(events)[r.value].(cnt := 0, wait := EmptyWaitList())]
    {
      if freeList.None? {
        assert free == [];
        return None;
      }
      var h := freeList.value;
      var e := events[h].(cnt := 0, wait := EmptyWaitList());
      PopChained(events, claimed, free, e);
      events := events[h := e];
      freeList := e.link;
      free := free[1..];
      r := Some(h);
    }

    /**
     * `free`: the block is marked unused and pushed at the head of the free
     * list, so the next `alloc` returns it.  A block must not be freed twice:
     * the source does not check, and a second push would make the list
     * cyclic.
     */
    method Free(k: nat)
      requires Valid() && k < OS_MAX_EVENTS && claimed[k] && k !in free
      modifies this`events, this`freeList, this`free
      ensures Valid() && free == [k] + old(free) && freeList == Some(k)
      ensures events == old(events)[k := old(events)[k].(kind := Unused, link := old(freeList))]
    {
      var e := events[k].(kind := Unused, link := freeList);
      PushChained(events, claimed, free, k, e);
      events := events[k := e];
      freeList := Some(k);
      free := [k] + free;
    }

    /** Writes the wait list of a block; the free list is untouched. */
    method SetWait(k: nat, w: WaitList)
      requires Valid() && k < OS_MAX_EVENTS && WaitOk(w)
      modifies this`events
      ensures Valid() && events == old(events)[k := old(events)[k].(wait := w)]
    {
      UpdateChained(events, claimed, free, k, events[k].(wait := w));
      events := events[k := events[k].(wait := w)];
    }

    /** Writes the count of a block (`OSEventCnt = ...`). */
    method SetCount(k: nat, c: u16)
      requires Valid() && k < OS_MAX_EVENTS
      modifies this`events
      ensures Valid() && events == old(events)[k := old(events)[k].(cnt := c)]
    {
      UpdateChained(events, claimed, free, k, events[k].(cnt := c));
      events := events[k := events[k].(cnt := c)];
    }

    /** Gives a block that is not free a type, a count and no link. */
    method SetUse(k: nat, kind: EventType, c: u16)
      requires Valid() && k < OS_MAX_EVENTS && k !in free && claimed[k]
      modifies this`events
      ensures Valid() && events == old(events)[k := old(events)[k].(kind := kind, cnt := c, link := None)]
    {
      UpdateChained(events, claimed, free, k, events[k].(kind := kind, cnt := c, link := None));
      events := events[k := events[k].(kind := kind, cnt := c, link := None)];
    }

    /**
     * `OS_EventWaitListInit`: the group is cleared, then each row of the
     * table in turn.
     */
    method WaitListInit(k: nat)
      requires Valid() && k < OS_MAX_EVENTS
      modifies this`events
      ensures Valid() && events == old(events)[k := old(events)[k].(wait := EmptyWaitList())]
      ensures Waiting(events[k].wait) == {}
    {
      EmptyWaitListHasNoWaiters();
      var tbl := events[k].wait.tbl;
      for i := 0 to OS_RDY_TBL_SIZE
        invariant |tbl| == OS_RDY_TBL_SIZE
        invariant forall j :: 0 <= j < i ==> tbl[j] == 0
      {
        tbl := tbl[i := 0];
      }
      assert WaitList(0, tbl) == EmptyWaitList();
      SetWait(k, WaitList(0, tbl));
    }

    /** A block in use (any type but UNUSED) is not on the free list. */
    lemma InUseNotFree(k: nat)
      requires Valid() && k < OS_MAX_EVENTS && events[k].kind != Unused
      ensures k !in free
    {
      assert Chained(events, claimed, free);
      forall j | 0 <= j < |free| ensures free[j] != k {
      }
    }
  }

  /**
   * `OS_EventTaskWait`: the running task leaves the ready list and its
   * priority joins the block's wait list.  The TCB's `OSTCBEventPtr` is not
   * part of this model.
   */
  method TaskWait(ex: SyncExecutor, pool: EventPool, k: nat)
    requires ex.Valid() && ex.tcbCur.Slot? && ex.tcbCur.i < |ex.tcbs|
    requires pool.Valid() && k < OS_MAX_EVENTS
    modifies ex`rdyGrp, ex.rdyTbl, pool`events
    ensures ex.Valid() && pool.Valid() && pool.free == old(pool.free)
    ensures var p := ex.tcbs[ex.tcbCur.i].prio;
            p <= OS_LOWEST_PRIO && WaitOk(old(pool.events[k].wait)) &&
            ReadySet(ex.rdyTbl[..]) == old(ReadySet(ex.rdyTbl[..])) - {p} &&
            pool.events == old(pool.events)[k := old(pool.events[k]).(wait := WaitMasked(old(pool.events[k].wait), p))] &&
            Waiting(pool.events[k].wait) == Waiting(old(pool.events[k].wait)) + {p}
  {
    var t := ex.tcbCur;
    ex.SetTaskUnready(t);
    var p := ex.tcbs[t.i].prio;
    var w := WaitMasked(pool.events[k].wait, p);
    WaitMaskedSpec(pool.events[k].wait, p);
    pool.SetWait(k, w);
  }

  /**
   * `OS_EventTaskRemove`: the task's priority leaves the block's wait list.
   * The TCB's `OSTCBEventPtr` is not part of this model.
   */
  method TaskRemove(ex: SyncExecutor, pool: EventPool, t: TcbRef, k: nat)
    requires ex.Core() && t.Slot? && t.i < |ex.tcbs|
    requires pool.Valid() && k < OS_MAX_EVENTS
    modifies pool`events
    ensures pool.Valid() && pool.free == old(pool.free)
    ensures var p := ex.tcbs[t.i].prio;
            p <= OS_LOWEST_PRIO && WaitOk(old(pool.events[k].wait)) &&
            pool.events == old(pool.events)[k := old(pool.events[k]).(wait := RemoveMasked(old(pool.events[k].wait), p))] &&
            Waiting(pool.events[k].wait) == Waiting(old(pool.events[k].wait)) - {p}
  {
    assert WellFormed(ex.tcbs[t.i]);
    var p := ex.tcbs[t.i].prio;
    RemoveMaskedSpec(pool.events[k].wait, p);
    pool.SetWait(k, RemoveMasked(pool.events[k].wait, p));
  }

  /**
   * `OS_EventTaskRdy`: the waiting priority chosen by `RdyPrio` is looked up
   * in the priority table; an empty entry is dereferenced as a null
   * reference (a panic).  Otherwise the task gets expiry u64::MAX, leaves
   * the timer queue (the other delayed tasks stay queued in order), is made
   * ready, and leaves the wait list.
   */
  method TaskRdy(ex: SyncExecutor, pool: EventPool, k: nat) returns (r: Outcome<nat>)
    requires ex.Valid() && pool.Valid() && k < OS_MAX_EVENTS
    modifies ex`rdyGrp, ex.rdyTbl, ex.prioTbl
    modifies ex.queue`expires, ex.queue`head, ex.queue`items, ex.queue`next, ex.queue`prev
    modifies pool`events
    ensures ex.Valid() && pool.Valid() && pool.free == old(pool.free)
    ensures var p := RdyPrio(old(pool.events[k].wait));
            r.Panic? <==> !old(ex.prioTbl[p]).Slot?
    ensures r.Done? ==>
              var p := r.value;
              p == RdyPrio(old(pool.events[k].wait)) &&
              ex.prioTbl[..] == old(ex.prioTbl[..]) &&
              ReadySet(ex.rdyTbl[..]) == old(ReadySet(ex.rdyTbl[..])) + {p} &&
              Waiting(pool.events[k].wait) == Waiting(old(pool.events[k].wait)) - {p} &&
              pool.events == old(pool.events)[k := old(pool.events[k]).(wait := pool.events[k].wait)] &&
              Unqueued(old(ex.queue.expires), old(ex.queue.items), ex.queue.expires, ex.queue.items, old(ex.prioTbl[p]).i)
    ensures r.Panic? ==> unchanged(pool, ex.queue) && ex.rdyTbl[..] == old(ex.rdyTbl[..]) && ex.prioTbl[..] == old(ex.prioTbl[..])
  {
    var p := RdyPrio(pool.events[k].wait);
    var t := ex.prioTbl[p];
    if !t.Slot? {
      return Panic("OS_EventTaskRdy: no task at the waiting priority");
    }
    ex.Resume(p);
    assert ex.tcbs[t.i].prio == p;
    TaskRemove(ex, pool, t, k);
    r := Done(p);
  }

  /**
   * `OS_EventTaskRdy` as written: the task gets expiry u64::MAX and is made
   * ready, but it stays linked in the timer queue, so the queue's expiries
   * are no longer in order.  The three steps touch disjoint state; the
   * expiry is written last so that the steps before it see a sorted queue.
   */
  method TaskRdyAsWritten(ex: SyncExecutor, pool: EventPool, k: nat) returns (r: Outcome<nat>)
    requires ex.Valid() && pool.Valid() && k < OS_MAX_EVENTS
    modifies ex`rdyGrp, ex.rdyTbl, ex.prioTbl, ex.queue`expires
    modifies pool`events
    ensures pool.Valid() && pool.free == old(pool.free) && ex.queue.Linked()
    ensures ex.queue.items == old(ex.queue.items)
    ensures var p := RdyPrio(old(pool.events[k].wait));
            r.Panic? <==> !old(ex.prioTbl[p]).Slot?
    ensures r.Done? ==>
              var p := r.value;
              p == RdyPrio(old(pool.events[k].wait)) && old(ex.prioTbl[p]).Slot? &&
              var i := old(ex.prioTbl[p]).i;
              ReadySet(ex.rdyTbl[..]) == old(ReadySet(ex.rdyTbl[..])) + {p} &&
              Waiting(pool.events[k].wait) == Waiting(old(pool.events[k].wait)) - {p} &&
              ex.queue.expires == old(ex.queue.expires)[i := TQ.NEVER] &&
              forall j :: 0 <= j < |ex.queue.items| && ex.queue.items[j] == i ==>
                ex.queue.Keys() == old(ex.queue.Keys())[j := TQ.NEVER]
    ensures r.Panic? ==> unchanged(pool) && ex.rdyTbl[..] == old(ex.rdyTbl[..]) && unchanged(ex.queue)
  {
    var p := RdyPrio(pool.events[k].wait);
    var t := ex.prioTbl[p];
    if !t.Slot? {
      return Panic("OS_EventTaskRdy: no task at the waiting priority");
    }
    ex.Enqueue(t);
    TaskRemove(ex, pool, t, k);
    ghost var items, e0 := ex.queue.items, ex.queue.expires;
    ex.queue.SetExpires(t.i, TQ.NEVER);
    forall j | 0 <= j < |items| && items[j] == t.i
      ensures TQ.KeysOf(items, e0[t.i := TQ.NEVER]) == TQ.KeysOf(items, e0)[j := TQ.NEVER]
    {
      KeysOverwrite(items, e0, j, TQ.NEVER);
    }
    r := Done(p);
  }

  /** Overwriting the expiry of the entry at position `j` overwrites key `j` and no other. */
  lemma KeysOverwrite(items: seq<nat>, e: seq<nat>, j: nat, v: nat)
    requires TQ.Slots(items, |e|) && TQ.Distinct(items) && j < |items|
    ensures TQ.KeysOf(items, e[items[j] := v]) == TQ.KeysOf(items, e)[j := v]
  {
    var a, b := TQ.KeysOf(items, e[items[j] := v]), TQ.KeysOf(items, e)[j := v];
    forall m | 0 <= m < |items| ensures a[m] == b[m] {
      if m != j {
        assert items[m] != items[j];
      }
    }
  }

  /**
   * Behind an entry whose expiry became u64::MAX, `dequeue_expired` stops:
   * at any time before u64::MAX it takes at most the entries in front of it,
   * however early the ones behind it are due.
   */
  lemma {:induction false} StaleEntryBlocks(keys: seq<nat>, j: nat, now: nat)
    requires j < |keys| && now < TQ.NEVER
    ensures TQ.FrontAtMost(keys[j := TQ.NEVER], now) <= j
  {
    if j > 0 && keys[0] <= now {
      assert keys[j := TQ.NEVER][1..] == keys[1..][j - 1 := TQ.NEVER];
      StaleEntryBlocks(keys[1..], j - 1, now);
    }
  }

  /**
   * With the readied task unlinked, as `TaskRdy` does, `dequeue_expired` at
   * `now` wakes every other queued task whose expiry has passed.
   */
  lemma UnlinkedDueWoken(e0: seq<nat>, items0: seq<nat>, e: seq<nat>, items: seq<nat>, i: nat, j: nat, now: nat)
    requires Unqueued(e0, items0, e, items, i)
    requires TQ.Slots(items, |e|) && TQ.Sorted(TQ.KeysOf(items, e))
    requires j in items0 && j != i && j < |e0| && e0[j] <= now
    ensures j in items[..TQ.FrontAtMost(TQ.KeysOf(items, e), now)]
  {
    UnqueuedKeepsOthers(e0, items0, e, items, i, j);
    var m :| 0 <= m < |items| && items[m] == j;
    TQ.FrontAtMostSorted(TQ.KeysOf(items, e), now);
    assert items[..TQ.FrontAtMost(TQ.KeysOf(items, e), now)][m] == j;
  }

  /**
   * Tasks A and B are delayed to ticks 5 and 7; the semaphore readies A
   * first.  As written A stays in the queue with expiry u64::MAX, and at
   * tick 10 `dequeue_expired` wakes nobody although B is due.  With A
   * unlinked, B is woken.
   */
  lemma ReadiedTaskBlocksQueue()
    ensures TQ.FrontAtMost([5, 7][0 := TQ.NEVER], 10) == 0
    ensures TQ.FrontAtMost([7], 10) == 1
  {
    StaleEntryBlocks([5, 7], 0, 10);
    assert [7][1..] == [];
  }
}

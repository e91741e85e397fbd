/**
 * The counting semaphore of the newer kernel (`os_sem.rs`) over the event
 * blocks of `Event`.  A semaphore is named by its block's index; a null
 * `OS_EVENT_REF` is None.  The interrupt and lock nesting are read from the
 * kernel globals `g`, the clock for the pend's delay from `now`.
 */
module OsSem {
  import opened Wrappers
  import opened Config
  import opened ReadyList
  import opened Task
  import opened Executor
  import opened OsCore
  import opened Event
  import OsTime
  import TD = TimeDriver
  import TQ = TimerQueue

  /** The TCB slots of the tasks at the priorities `ps`. */
  ghost function SlotsOf(tbl: seq<TcbRef>, ps: set<nat>): set<nat>
  {
    set p | p in ps && p < |tbl| && tbl[p].Slot? :: tbl[p].i
  }

  /** The entries of `items` outside `s`, in their order. */
  ghost function Without(items: seq<nat>, s: set<nat>): seq<nat>
  {
    if items == [] then [] else (if items[0] in s then [] else [items[0]]) + Without(items[1..], s)
  }

  /** The filtered list holds exactly the entries outside `s`. */
  lemma {:induction false} WithoutMembers(items: seq<nat>, s: set<nat>, j: nat)
    ensures j in Without(items, s) <==> j in items && j !in s
  {
    if items != [] {
      WithoutMembers(items[1..], s, j);
      assert items == [items[0]] + items[1..];
    }
  }

  /** Filtering out a slot the list does not hold changes nothing. */
  lemma {:induction false} WithoutAbsent(items: seq<nat>, s: set<nat>, i: nat)
    requires i !in items
    ensures Without(items, s + {i}) == Without(items, s)
  {
    if items != [] {
      assert items == [items[0]] + items[1..];
      WithoutAbsent(items[1..], s, i);
    }
  }

  /** The tail of a list without repeated slots has none either, and lacks the head. */
  lemma DistinctTail(items: seq<nat>)
    requires TQ.Distinct(items) && items != []
    ensures TQ.Distinct(items[1..]) && items[0] !in items[1..]
  {
    forall a, b | 0 <= a < b < |items[1..]| ensures items[1..][a] != items[1..][b] {
      assert items[a + 1] != items[b + 1];
    }
    forall b | 0 <= b < |items[1..]| ensures items[1..][b] != items[0] {
      assert items[b + 1] != items[0];
    }
  }

  /** Removing entry `k`, slot `i`, of a filtered list filters `i` out as well. */
  lemma {:induction false} WithoutRemove(items: seq<nat>, s: set<nat>, i: nat, k: nat)
    requires TQ.Distinct(items) && k < |Without(items, s)| && Without(items, s)[k] == i
    ensures Without(items, s)[..k] + Without(items, s)[k + 1..] == Without(items, s + {i})
  {
    assert items != [];
    DistinctTail(items);
    if items[0] in s {
      assert Without(items, s) == Without(items[1..], s);
      WithoutRemove(items[1..], s, i, k);
    } else if items[0] == i {
      WithoutRemoveHead(items, s, i, k);
    } else {
      assert Without(items, s) == [items[0]] + Without(items[1..], s) && k > 0;
      WithoutRemove(items[1..], s, i, k - 1);
      WithoutKeepHead(items, s, i, k);
    }
  }

  /** The removed slot is the head: the filtered tail is what remains. */
  lemma WithoutRemoveHead(items: seq<nat>, s: set<nat>, i: nat, k: nat)
    requires items != [] && items[0] == i && i !in s && i !in items[1..]
    requires k < |Without(items, s)| && Without(items, s)[k] == i
    ensures Without(items, s)[..k] + Without(items, s)[k + 1..] == Without(items, s + {i})
  {
    var rest := Without(items[1..], s);
    assert Without(items, s) == [i] + rest;
    WithoutMembers(items[1..], s, i);
    assert k == 0;
    WithoutAbsent(items[1..], s, i);
  }

  /** A kept head stays in front when a later entry is removed. */
  lemma WithoutKeepHead(items: seq<nat>, s: set<nat>, i: nat, k: nat)
    requires items != [] && items[0] !in s && items[0] != i
    requires 0 < k < |Without(items, s)|
    requires Without(items[1..], s)[..k - 1] + Without(items[1..], s)[k..] == Without(items[1..], s + {i})
    ensures Without(items, s)[..k] + Without(items, s)[k + 1..] == Without(items, s + {i})
  {
    var w, rest := Without(items, s), Without(items[1..], s);
    assert w == [items[0]] + rest;
    assert Without(items, s + {i}) == [items[0]] + Without(items[1..], s + {i});
    assert w[..k] + w[k + 1..] == [items[0]] + (rest[..k - 1] + rest[k..]);
  }

  /** Filtering out nothing keeps the list. */
  lemma {:induction false} WithoutNothing(items: seq<nat>)
    ensures Without(items, {}) == items
  {
    if items != [] {
      WithoutNothing(items[1..]);
    }
  }

  /**
   * The timer queue after the slots `s` left it: their expiries are
   * u64::MAX, every other expiry is kept, and the queue holds its old
   * entries outside `s`, in their old order.
   */
  ghost predicate QueueLeft(e0: seq<nat>, items0: seq<nat>, e: seq<nat>, items: seq<nat>, s: set<nat>)
  {
    |e| == |e0| && (forall j :: j in s ==> j < |e0|) &&
    (forall j :: 0 <= j < |e0| ==> e[j] == if j in s then TQ.NEVER else e0[j]) &&
    items == Without(items0, s)
  }

  /** With no slot leaving, the queue is unchanged. */
  lemma QueueLeftNone(e: seq<nat>, items: seq<nat>)
    ensures QueueLeft(e, items, e, items, {})
  {
    WithoutNothing(items);
  }

  /** Unqueuing one more slot extends `QueueLeft` by that slot. */
  lemma QueueLeftStep(e0: seq<nat>, items0: seq<nat>, e1: seq<nat>, items1: seq<nat>, e2: seq<nat>, items2: seq<nat>,
                      s: set<nat>, i: nat)
    requires TQ.Distinct(items0)
    requires QueueLeft(e0, items0, e1, items1, s) && Unqueued(e1, items1, e2, items2, i)
    ensures QueueLeft(e0, items0, e2, items2, s + {i})
  {
    if i in items1 {
      var k :| 0 <= k < |items1| && items1[k] == i && items2 == items1[..k] + items1[k + 1..];
      WithoutRemove(items0, s, i, k);
    } else if i in s {
      assert s + {i} == s;
    } else {
      WithoutMembers(items0, s, i);
      WithoutAbsent(items0, s, i);
    }
  }

  /**
   * One pass of the `OS_DEL_ALWAYS` loop keeps its account: the ready set
   * gained the priorities that left the wait list, and the timer queue lost
   * exactly their slots.
   */
  lemma ReadiedOne(rdy0: set<nat>, w0: set<nat>, w: set<nat>, p: nat, rs1: set<nat>, rs2: set<nat>, tbl: seq<TcbRef>,
                   q0: seq<nat>, items0: seq<nat>, q1: seq<nat>, items1: seq<nat>, q2: seq<nat>, items2: seq<nat>)
    requires w <= w0 && p in w && p < |tbl| && tbl[p].Slot?
    requires rs1 == rdy0 + (w0 - w) && rs2 == rs1 + {p}
    requires TQ.Distinct(items0) && QueueLeft(q0, items0, q1, items1, SlotsOf(tbl, w0 - w))
    requires Unqueued(q1, items1, q2, items2, tbl[p].i)
    ensures w - {p} <= w0 && rs2 == rdy0 + (w0 - (w - {p}))
    ensures QueueLeft(q0, items0, q2, items2, SlotsOf(tbl, w0 - (w - {p})))
  {
    assert w0 - (w - {p}) == (w0 - w) + {p};
    SlotsOfAdd(tbl, w0 - w, p);
    QueueLeftStep(q0, items0, q1, items1, q2, items2, SlotsOf(tbl, w0 - w), tbl[p].i);
  }

  /** Readying one more priority adds its slot. */
  lemma SlotsOfAdd(tbl: seq<TcbRef>, ps: set<nat>, p: nat)
    requires p < |tbl| && tbl[p].Slot?
    ensures SlotsOf(tbl, ps + {p}) == SlotsOf(tbl, ps) + {tbl[p].i}
  {
    assert tbl[p].i in SlotsOf(tbl, ps + {p});
  }

  /**
   * `OSSemCreate`: from an interrupt it returns None and does nothing.
   * Otherwise it takes the head of the free list (an empty list is unwrapped:
   * a panic) and makes it a semaphore with count `cnt`, no link and nobody
   * waiting.
   */
  method Create(g: OsGlobals, pool: EventPool, cnt: u16) returns (r: Outcome<Option<nat>>)
    requires pool.Valid()
    modifies pool`events, pool`freeList, pool`free
    ensures pool.Valid()
    ensures g.intNesting > 0 ==> r == Done(None) && unchanged(pool)
    ensures g.intNesting == 0 && old(pool.free) == [] ==> r.Panic? && unchanged(pool)
    ensures g.intNesting == 0 && old(pool.free) != [] ==>
              var k := old(pool.free)[0];
              r == Done(Some(k)) && pool.free == old(pool.free)[1..] &&
              pool.events[k].kind == Sem && pool.events[k].cnt == cnt && pool.events[k].link == None &&
              Waiting(pool.events[k].wait) == {} &&
              forall j :: 0 <= j < OS_MAX_EVENTS && j != k ==> pool.events[j] == old(pool.events[j])
  {
    if g.intNesting > 0 {
      return Done(None);
    }
    var a := pool.Alloc();
    if a.None? {
      return Panic("OSSemCreate: no free event control block");
    }
    var k := a.value;
    pool.SetUse(k, Sem, cnt);
    pool.WaitListInit(k);
    r := Done(Some(k));
  }

  /**
   * `OSSemAccept`: 0 for a block that is not a semaphore; otherwise the count
   * before the call, which is decremented when it was positive.  There is no
   * null check: a null reference is dereferenced, a panic.
   */
  method Accept(pool: EventPool, pevent: Option<nat>) returns (r: Outcome<u16>)
    requires pool.Valid() && (pevent.Some? ==> pevent.value < OS_MAX_EVENTS)
    modifies pool`events
    ensures pool.Valid() && pool.free == old(pool.free)
    ensures pevent.None? ==> r.Panic? && pool.events == old(pool.events)
    ensures pevent.Some? && old(pool.events[pevent.value].kind) != Sem ==>
              r == Done(0) && pool.events == old(pool.events)
    ensures pevent.Some? && old(pool.events[pevent.value].kind) == Sem ==>
              var k, c := pevent.value, old(pool.events[pevent.value].cnt);
              r == Done(c) &&
              (c == 0 ==> pool.events == old(pool.events)) &&
              (c > 0 ==> pool.events == old(pool.events)[k := old(pool.events[k]).(cnt := c - 1)])
  {
    if pevent.None? {
      return Panic("OSSemAccept: null OS_EVENT_REF dereferenced");
    }
    var c := Take(pool, pevent.value);
    r := Done(c);
  }

  /** The body of `OSSemAccept` on a non-null reference to block `k`. */
  method Take(pool: EventPool, k: nat) returns (c: u16)
    requires pool.Valid() && k < OS_MAX_EVENTS
    modifies pool`events
    ensures pool.Valid() && pool.free == old(pool.free)
    ensures old(pool.events[k].kind) != Sem ==> c == 0 && pool.events == old(pool.events)
    ensures old(pool.events[k].kind) == Sem ==>
              c == old(pool.events[k].cnt) &&
              (c == 0 ==> pool.events == old(pool.events)) &&
              (c > 0 ==> pool.events == old(pool.events)[k := old(pool.events[k]).(cnt := c - 1)])
  {
    if pool.events[k].kind != Sem {
      return 0;
    }
    c := pool.events[k].cnt;
    if c > 0 {
      ghost var e0 := pool.events;
      pool.SetCount(k, c - 1);
      assert pool.events == e0[k := e0[k].(cnt := c - 1)];
    }
  }

  /**
   * One pass of the `OS_DEL_ALWAYS` loop: the highest waiting task of a
   * non-empty wait list is readied, so it leaves the wait list and the timer
   * queue and joins the ready set.
   */
  method ReadyStep(ex: SyncExecutor, pool: EventPool, k: nat) returns (r: Outcome<nat>)
    requires ex.Valid() && pool.Valid() && k < OS_MAX_EVENTS && pool.events[k].wait.grp != 0
    modifies ex`rdyGrp, ex.rdyTbl, ex.prioTbl
    modifies ex.queue`expires, ex.queue`head, ex.queue`items, ex.queue`next, ex.queue`prev
    modifies pool`events
    ensures ex.Valid() && pool.Valid() && pool.free == old(pool.free)
    ensures OnlyWaitChanged(old(pool.events), pool.events, k)
    ensures var w := old(pool.events[k].wait);
            RdyPrio(w) in Waiting(w) && (forall q :: q in Waiting(w) ==> RdyPrio(w) <= q) &&
            (r.Panic? <==> !old(ex.prioTbl[RdyPrio(w)]).Slot?)
    ensures r.Done? ==>
              var p := r.value;
              p == RdyPrio(old(pool.events[k].wait)) && p in Waiting(old(pool.events[k].wait)) &&
              Waiting(pool.events[k].wait) == Waiting(old(pool.events[k].wait)) - {p} &&
              ex.prioTbl[..] == old(ex.prioTbl[..]) &&
              ReadySet(ex.rdyTbl[..]) == old(ReadySet(ex.rdyTbl[..])) + {p} &&
              Unqueued(old(ex.queue.expires), old(ex.queue.items), ex.queue.expires, ex.queue.items, old(ex.prioTbl[p]).i)
    ensures r.Panic? ==> pool.events == old(pool.events) && unchanged(ex.queue) &&
                         ex.rdyTbl[..] == old(ex.rdyTbl[..]) && ex.prioTbl[..] == old(ex.prioTbl[..])
  {
    RdyPrioIsHighestWaiting(pool.events[k].wait);
    r := TaskRdy(ex, pool, k);
  }

  /**
   * The `OS_DEL_ALWAYS` loop of `OSSemDel`: while the group is non-zero the
   * highest waiting task is readied.  Each pass removes one waiting
   * priority, so the loop ends; a waiting priority without a task stops it
   * with a panic.
   */
  method ReadyAll(ex: SyncExecutor, pool: EventPool, k: nat) returns (r: Outcome<()>)
    requires ex.Valid() && pool.Valid() && k < OS_MAX_EVENTS
    modifies ex`rdyGrp, ex.rdyTbl, ex.prioTbl
    modifies ex.queue`expires, ex.queue`head, ex.queue`items, ex.queue`next, ex.queue`prev
    modifies pool`events
    ensures ex.Valid() && pool.Valid() && pool.free == old(pool.free)
    ensures OnlyWaitChanged(old(pool.events), pool.events, k)
    ensures ex.prioTbl[..] == old(ex.prioTbl[..])
    ensures var gone := Waiting(old(pool.events[k].wait)) - Waiting(pool.events[k].wait);
            ReadySet(ex.rdyTbl[..]) == old(ReadySet(ex.rdyTbl[..])) + gone &&
            QueueLeft(old(ex.queue.expires), old(ex.queue.items), ex.queue.expires, ex.queue.items,
                      SlotsOf(old(ex.prioTbl[..]), gone))
    ensures r.Done? ==> pool.events[k].wait.grp == 0 && Waiting(pool.events[k].wait) == {}
    ensures r.Panic? ==> old(pool.events[k].wait.grp) != 0
  {
    ghost var e0, rdy0, tbl0 := pool.events, ReadySet(ex.rdyTbl[..]), ex.prioTbl[..];
    ghost var q0, items0, w0 := ex.queue.expires, ex.queue.items, Waiting(pool.events[k].wait);
    WithoutNothing(items0);
    assert SlotsOf(tbl0, w0 - w0) == {};
    while pool.events[k].wait.grp != 0
      invariant ex.Valid() && pool.Valid() && pool.free == old(pool.free)
      invariant OnlyWaitChanged(e0, pool.events, k) && ex.prioTbl[..] == tbl0
      invariant Waiting(pool.events[k].wait) <= w0
      invariant ReadySet(ex.rdyTbl[..]) == rdy0 + (w0 - Waiting(pool.events[k].wait))
      invariant QueueLeft(q0, items0, ex.queue.expires, ex.queue.items, SlotsOf(tbl0, w0 - Waiting(pool.events[k].wait)))
      invariant e0[k].wait.grp == 0 ==> pool.events[k].wait.grp == 0
      decreases |Waiting(pool.events[k].wait)|
    {
      ghost var w, rs1, q1, items1 := Waiting(pool.events[k].wait), ReadySet(ex.rdyTbl[..]), ex.queue.expires, ex.queue.items;
      var o := ReadyStep(ex, pool, k);
      if o.Panic? {
        return Panic(o.reason);
      }
      ReadiedOne(rdy0, w0, w, o.value, rs1, ReadySet(ex.rdyTbl[..]), tbl0, q0, items0, q1, items1, ex.queue.expires, ex.queue.items);
    }
    HighestReadyPrioIsMinimum(pool.events[k].wait.grp, pool.events[k].wait.tbl);
    r := Done(());
  }

  /**
   * `OSSemDel`.  With argument checks a null reference is an error, without
   * them it is dereferenced (a panic); then the block must be a semaphore and
   * the caller not an interrupt.  `OS_DEL_NO_PEND` frees the block only when
   * nobody waits; `OS_DEL_ALWAYS` readies every waiting task, frees the block
   * and reschedules when tasks were waiting.  A deleted semaphore returns the
   * null reference, every refusal returns `pevent`.
   */
  method Del(ex: SyncExecutor, g: OsGlobals, pool: EventPool, pevent: Option<nat>, opt: nat, argChk: bool)
    returns (r: Outcome<OsErr>, ret: Option<nat>, switch: bool)
    requires ex.Valid() && pool.Valid() && (pevent.Some? ==> pevent.value < OS_MAX_EVENTS)
    modifies ex`rdyGrp, ex.rdyTbl, ex.prioTbl, ex`prioHighRdy, ex`tcbHighRdy
    modifies ex.queue`expires, ex.queue`head, ex.queue`items, ex.queue`next, ex.queue`prev
    modifies pool`events, pool`freeList, pool`free
    ensures ex.Valid() && pool.Valid()
    ensures pevent.None? ==>
              (if argChk then r == Done(OS_ERR_PEVENT_NULL) else r.Panic?) &&
              ret == pevent && !switch && unchanged(pool) && ex.rdyTbl[..] == old(ex.rdyTbl[..])
    ensures pevent.Some? && !DelFrees(g, old(pool.events[pevent.value]), opt) ==>
              r == Done(DelRefusal(g, old(pool.events[pevent.value]), opt)) &&
              ret == pevent && !switch && unchanged(pool) && ex.rdyTbl[..] == old(ex.rdyTbl[..])
    ensures pevent.Some? && DelFrees(g, old(pool.events[pevent.value]), opt) && r.Done? ==>
              var k, e := pevent.value, old(pool.events[pevent.value]);
              r.value == OS_ERR_NONE && ret == None &&
              pool.free == [k] + old(pool.free) &&
              pool.events[k].kind == Unused && pool.events[k].cnt == 0 && Waiting(pool.events[k].wait) == {} &&
              (forall j :: 0 <= j < OS_MAX_EVENTS && j != k ==> pool.events[j] == old(pool.events[j])) &&
              ReadySet(ex.rdyTbl[..]) == old(ReadySet(ex.rdyTbl[..])) + Waiting(e.wait) &&
              QueueLeft(old(ex.queue.expires), old(ex.queue.items), ex.queue.expires, ex.queue.items,
                        SlotsOf(old(ex.prioTbl[..]), Waiting(e.wait))) &&
              (switch <==> e.wait.grp != 0 && HighestReadyPrio(ex.rdyGrp, ex.rdyTbl[..]) < ex.prioCur &&
                           g.intNesting == 0 && g.lockNesting == 0)
    ensures r.Panic? && pevent.Some? ==> opt == OS_DEL_ALWAYS && old(pool.events[pevent.value].wait.grp) != 0
  {
    ret, switch := pevent, false;
    if pevent.None? {
      if argChk {
        return Done(OS_ERR_PEVENT_NULL), ret, switch;
      }
      return Panic("OSSemDel: null OS_EVENT_REF dereferenced"), ret, switch;
    }
    var k := pevent.value;
    if !DelFrees(g, pool.events[k], opt) {
      return Done(DelRefusal(g, pool.events[k], opt)), ret, switch;
    }
    var o;
    o, switch := Release(ex, g, pool, k, opt);
    if o.Panic? {
      return Panic(o.reason), ret, switch;
    }
    r, ret := Done(OS_ERR_NONE), None;
  }

  /**
   * The deleting half of `OSSemDel` on a semaphore it frees: with
   * `OS_DEL_ALWAYS` every waiting task is readied first; the block goes back
   * on the free list with count 0, and the scheduler runs when tasks were
   * waiting.
   */
  method Release(ex: SyncExecutor, g: OsGlobals, pool: EventPool, k: nat, opt: nat)
    returns (r: Outcome<()>, switch: bool)
    requires ex.Valid() && pool.Valid() && k < OS_MAX_EVENTS && DelFrees(g, pool.events[k], opt)
    modifies ex`rdyGrp, ex.rdyTbl, ex.prioTbl, ex`prioHighRdy, ex`tcbHighRdy
    modifies ex.queue`expires, ex.queue`head, ex.queue`items, ex.queue`next, ex.queue`prev
    modifies pool`events, pool`freeList, pool`free
    ensures ex.Valid() && pool.Valid()
    ensures r.Done? ==>
              var e := old(pool.events[k]);
              pool.free == [k] + old(pool.free) &&
              pool.events[k].kind == Unused && pool.events[k].cnt == 0 && Waiting(pool.events[k].wait) == {} &&
              (forall j :: 0 <= j < OS_MAX_EVENTS && j != k ==> pool.events[j] == old(pool.events[j])) &&
              ReadySet(ex.rdyTbl[..]) == old(ReadySet(ex.rdyTbl[..])) + Waiting(e.wait) &&
              QueueLeft(old(ex.queue.expires), old(ex.queue.items), ex.queue.expires, ex.queue.items,
                        SlotsOf(old(ex.prioTbl[..]), Waiting(e.wait))) &&
              (switch <==> e.wait.grp != 0 && HighestReadyPrio(ex.rdyGrp, ex.rdyTbl[..]) < ex.prioCur &&
                           g.intNesting == 0 && g.lockNesting == 0)
    ensures r.Panic? ==> opt == OS_DEL_ALWAYS && old(pool.events[k].wait.grp) != 0
  {
    switch := false;
    var tasksWaiting := pool.events[k].wait.grp != 0;
    r := ReadyWaiters(ex, pool, k, opt);
    if r.Panic? {
      return r, switch;
    }
    ghost var rs, q, items := ReadySet(ex.rdyTbl[..]), ex.queue.expires, ex.queue.items;
    FreeSem(pool, k);
    if tasksWaiting {
      switch := ex.IntCtxSw(g.intNesting as nat, g.lockNesting as nat);
    }
    assert ReadySet(ex.rdyTbl[..]) == rs && ex.queue.expires == q && ex.queue.items == items;
    r := Done(());
  }

  /**
   * The readying step of `OSSemDel` on a semaphore it frees: with
   * `OS_DEL_ALWAYS` every waiting task is readied and leaves the timer
   * queue; with `OS_DEL_NO_PEND` nobody waits and nothing changes.
   */
  method ReadyWaiters(ex: SyncExecutor, pool: EventPool, k: nat, opt: nat) returns (r: Outcome<()>)
    requires ex.Valid() && pool.Valid() && k < OS_MAX_EVENTS
    requires opt == OS_DEL_ALWAYS || pool.events[k].wait.grp == 0
    modifies ex`rdyGrp, ex.rdyTbl, ex.prioTbl
    modifies ex.queue`expires, ex.queue`head, ex.queue`items, ex.queue`next, ex.queue`prev
    modifies pool`events
    ensures ex.Valid() && pool.Valid() && pool.free == old(pool.free)
    ensures r.Done? ==>
              var w := Waiting(old(pool.events[k].wait));
              OnlyWaitChanged(old(pool.events), pool.events, k) && Waiting(pool.events[k].wait) == {} &&
              ReadySet(ex.rdyTbl[..]) == old(ReadySet(ex.rdyTbl[..])) + w &&
              QueueLeft(old(ex.queue.expires), old(ex.queue.items), ex.queue.expires, ex.queue.items,
                        SlotsOf(old(ex.prioTbl[..]), w))
    ensures r.Panic? ==> opt == OS_DEL_ALWAYS && old(pool.events[k].wait.grp) != 0
  {
    if opt == OS_DEL_ALWAYS {
      ghost var w := Waiting(pool.events[k].wait);
      r := ReadyAll(ex, pool, k);
      if r.Done? {
        assert w - Waiting(pool.events[k].wait) == w;
      }
    } else {
      HighestReadyPrioIsMinimum(pool.events[k].wait.grp, pool.events[k].wait.tbl);
      assert Waiting(pool.events[k].wait) == {};
      assert SlotsOf(ex.prioTbl[..], {}) == {};
      QueueLeftNone(ex.queue.expires, ex.queue.items);
      r := Done(());
    }
  }

  /** A semaphore block goes back on the free list with its count cleared. */
  method FreeSem(pool: EventPool, k: nat)
    requires pool.Valid() && k < OS_MAX_EVENTS && pool.events[k].kind == Sem
    modifies pool`events, pool`freeList, pool`free
    ensures pool.Valid() && pool.free == [k] + old(pool.free)
    ensures pool.events == old(pool.events)[k := old(pool.events[k]).(kind := Unused, link := old(pool.freeList), cnt := 0)]
  {
    pool.InUseNotFree(k);
    pool.Free(k);
    pool.SetCount(k, 0);
  }

  /**
   * Whether `OSSemDel` on a block with option `opt` goes on to free it: a
   * semaphore, not from an interrupt, and either `OS_DEL_ALWAYS` or
   * `OS_DEL_NO_PEND` with nobody waiting.
   */
  predicate DelFrees(g: OsGlobals, e: Ecb, opt: nat)
    reads g
  {
    e.kind == Sem && g.intNesting == 0 &&
    (opt == OS_DEL_ALWAYS || (opt == OS_DEL_NO_PEND && e.wait.grp == 0))
  }

  /** The error `OSSemDel` returns when it does not free the block, checks in source order. */
  function DelRefusal(g: OsGlobals, e: Ecb, opt: nat): (err: OsErr)
    reads g
    ensures err == OS_ERR_NONE <==> DelFrees(g, e, opt)
    ensures e.kind != Sem ==> err == OS_ERR_EVENT_TYPE
    ensures e.kind == Sem && g.intNesting > 0 ==> err == OS_ERR_DEL_ISR
  {
    if e.kind != Sem then OS_ERR_EVENT_TYPE
    else if g.intNesting > 0 then OS_ERR_DEL_ISR
    else if opt == OS_DEL_NO_PEND then (if e.wait.grp == 0 then OS_ERR_NONE else OS_ERR_TASK_WAITING)
    else if opt == OS_DEL_ALWAYS then OS_ERR_NONE
    else OS_ERR_INVALID_OPT
  }

  /** Whether `OSSemPend` on `pevent` blocks the caller: a semaphore with count 0, not from an interrupt. */
  predicate PendWaits(g: OsGlobals, pool: EventPool, pevent: Option<nat>)
    reads g, pool
  {
    pevent.Some? && pevent.value < |pool.events| && pool.events[pevent.value].kind == Sem &&
    g.intNesting == 0 && pool.events[pevent.value].cnt == 0
  }

  /**
   * `OSSemPend`: after the null, type and interrupt checks, a positive count
   * is taken at once; a zero count puts the running task on the wait list
   * and delays it for `timeout` ticks (`OSTimeDly`, which does nothing under
   * the scheduler lock).  Both paths return `OS_ERR_NONE`.
   */
  method Pend(ex: SyncExecutor, drv: TD.RtcDriver, g: OsGlobals, pool: EventPool, now: nat,
              pevent: Option<nat>, timeout: u16, argChk: bool)
    returns (r: Outcome<OsErr>, switch: bool)
    requires pool.Valid() && (pevent.Some? ==> pevent.value < OS_MAX_EVENTS)
    requires PendWaits(g, pool, pevent) ==>
               ex.Valid() && ex.tcbCur.Slot? && ex.tcbCur.i < |ex.tcbs| &&
               (g.lockNesting == 0 ==> OsTime.CanDelay(ex, drv, now, timeout as nat))
    modifies ex`rdyGrp, ex.rdyTbl, ex.prioTbl, ex`prioHighRdy, ex`tcbHighRdy
    modifies ex.queue`expires, ex.queue`head, ex.queue`items, ex.queue`next, ex.queue`prev, ex.queue`setTime
    modifies drv`alarms, drv`alarmIe, drv`ccr
    modifies pool`events
    ensures pool.Valid() && pool.free == old(pool.free)
    ensures pevent.None? ==>
              (if argChk then r == Done(OS_ERR_PEVENT_NULL) else r.Panic?) && !switch && unchanged(pool)
    ensures pevent.Some? && old(pool.events[pevent.value].kind) != Sem ==>
              r == Done(OS_ERR_EVENT_TYPE) && !switch && unchanged(pool)
    ensures pevent.Some? && old(pool.events[pevent.value].kind) == Sem && g.intNesting > 0 ==>
              r == Done(OS_ERR_PEND_ISR) && !switch && unchanged(pool)
    ensures pevent.Some? && old(pool.events[pevent.value].kind) == Sem && g.intNesting == 0 &&
            old(pool.events[pevent.value].cnt) > 0 ==>
              var k := pevent.value;
              r == Done(OS_ERR_NONE) && !switch &&
              pool.events == old(pool.events)[k := old(pool.events[k]).(cnt := old(pool.events[k].cnt) - 1)]
    ensures old(PendWaits(g, pool, pevent)) ==>
              var k, p := pevent.value, old(ex.tcbs[ex.tcbCur.i].prio);
              r == Done(OS_ERR_NONE) &&
              OnlyWaitChanged(old(pool.events), pool.events, k) &&
              Waiting(pool.events[k].wait) == Waiting(old(pool.events[k].wait)) + {p} &&
              (g.lockNesting > 0 ==> !switch && p !in ReadySet(ex.rdyTbl[..])) &&
              (g.lockNesting == 0 ==>
                 OsTime.Delayed(ex, drv, now, timeout as nat) &&
                 ex.prioHighRdy == HighestReadyPrio(ex.rdyGrp, ex.rdyTbl[..]) && (switch <==> ex.prioHighRdy != ex.prioCur))
  {
    switch := false;
    if pevent.None? {
      if argChk {
        return Done(OS_ERR_PEVENT_NULL), switch;
      }
      return Panic("OSSemPend: null OS_EVENT_REF dereferenced"), switch;
    }
    var k := pevent.value;
    if pool.events[k].kind != Sem {
      return Done(OS_ERR_EVENT_TYPE), switch;
    }
    if g.intNesting > 0 {
      return Done(OS_ERR_PEND_ISR), switch;
    }
    var c := pool.events[k].cnt;
    if c > 0 {
      pool.SetCount(k, c - 1);
      return Done(OS_ERR_NONE), switch;
    }
    switch := Block(ex, drv, g, pool, now, k, timeout);
    r := Done(OS_ERR_NONE);
  }

  /** The blocking path of `OSSemPend`: the running task waits on block `k`, then `OSTimeDly(timeout)`. */
  method Block(ex: SyncExecutor, drv: TD.RtcDriver, g: OsGlobals, pool: EventPool, now: nat, k: nat, timeout: u16)
    returns (switch: bool)
    requires pool.Valid() && k < OS_MAX_EVENTS
    requires ex.Valid() && ex.tcbCur.Slot? && ex.tcbCur.i < |ex.tcbs|
    requires g.intNesting == 0 && g.lockNesting == 0 ==> OsTime.CanDelay(ex, drv, now, timeout as nat)
    modifies ex`rdyGrp, ex.rdyTbl, ex.prioTbl, ex`prioHighRdy, ex`tcbHighRdy
    modifies ex.queue`expires, ex.queue`head, ex.queue`items, ex.queue`next, ex.queue`prev, ex.queue`setTime
    modifies drv`alarms, drv`alarmIe, drv`ccr
    modifies pool`events
    ensures pool.Valid() && pool.free == old(pool.free)
    ensures var p := old(ex.tcbs[ex.tcbCur.i].prio);
            OnlyWaitChanged(old(pool.events), pool.events, k) &&
            Waiting(pool.events[k].wait) == Waiting(old(pool.events[k].wait)) + {p} &&
            (g.intNesting > 0 || g.lockNesting > 0 ==> !switch && p !in ReadySet(ex.rdyTbl[..])) &&
            (g.intNesting == 0 && g.lockNesting == 0 ==>
               OsTime.Delayed(ex, drv, now, timeout as nat) &&
               ex.prioHighRdy == HighestReadyPrio(ex.rdyGrp, ex.rdyTbl[..]) && (switch <==> ex.prioHighRdy != ex.prioCur))
  {
    ghost var ready0 := ReadySet(ex.rdyTbl[..]);
    TaskWait(ex, pool, k);
    ghost var events, ready1 := pool.events, ReadySet(ex.rdyTbl[..]);
    assert pool.Valid();
    switch := OsTime.TimeDly(ex, drv, g, now, timeout as nat, false);
    assert pool.events == events;
    if g.intNesting == 0 && g.lockNesting == 0 {
      assert ready1 - {ex.tcbs[ex.tcbCur.i].prio} == ready0 - {ex.tcbs[ex.tcbCur.i].prio};
    }
  }

  /**
   * `OSSemPost`: after the null and type checks, a waiting task is readied
   * (the highest priority one) and the scheduler runs; with nobody waiting
   * the count goes up, unless it is already 65535.
   */
  method Post(ex: SyncExecutor, g: OsGlobals, pool: EventPool, pevent: Option<nat>, argChk: bool)
    returns (r: Outcome<OsErr>, switch: bool)
    requires ex.Valid() && pool.Valid() && (pevent.Some? ==> pevent.value < OS_MAX_EVENTS)
    modifies ex`rdyGrp, ex.rdyTbl, ex.prioTbl, ex`prioHighRdy, ex`tcbHighRdy
    modifies ex.queue`expires, ex.queue`head, ex.queue`items, ex.queue`next, ex.queue`prev
    modifies pool`events
    ensures ex.Valid() && pool.Valid() && pool.free == old(pool.free)
    ensures pevent.None? ==>
              (if argChk then r == Done(OS_ERR_PEVENT_NULL) else r.Panic?) && !switch && unchanged(pool)
    ensures pevent.Some? && old(pool.events[pevent.value].kind) != Sem ==>
              r == Done(OS_ERR_EVENT_TYPE) && !switch && unchanged(pool)
    ensures pevent.Some? && old(pool.events[pevent.value].kind) == Sem && old(pool.events[pevent.value].wait.grp) == 0 ==>
              var k, c := pevent.value, old(pool.events[pevent.value].cnt);
              !switch && ex.rdyTbl[..] == old(ex.rdyTbl[..]) &&
              (c < U16_MAX ==> r == Done(OS_ERR_NONE) && pool.events == old(pool.events)[k := old(pool.events[k]).(cnt := c + 1)]) &&
              (c == U16_MAX ==> r == Done(OS_ERR_SEM_OVF) && unchanged(pool))
    ensures pevent.Some? && old(pool.events[pevent.value].kind) == Sem && old(pool.events[pevent.value].wait.grp) != 0 ==>
              var k, w := pevent.value, old(pool.events[pevent.value].wait);
              var p := RdyPrio(w);
              p in Waiting(w) && (forall q :: q in Waiting(w) ==> p <= q) &&
              (r.Panic? <==> !old(ex.prioTbl[p]).Slot?) &&
              (r.Done? ==>
                 r.value == OS_ERR_NONE &&
                 OnlyWaitChanged(old(pool.events), pool.events, k) &&
                 Waiting(pool.events[k].wait) == Waiting(w) - {p} &&
                 ReadySet(ex.rdyTbl[..]) == old(ReadySet(ex.rdyTbl[..])) + {p} &&
                 Unqueued(old(ex.queue.expires), old(ex.queue.items), ex.queue.expires, ex.queue.items, old(ex.prioTbl[p]).i) &&
                 (switch <==> HighestReadyPrio(ex.rdyGrp, ex.rdyTbl[..]) < ex.prioCur &&
                              g.intNesting == 0 && g.lockNesting == 0))
  {
    switch := false;
    if pevent.None? {
      if argChk {
        return Done(OS_ERR_PEVENT_NULL), switch;
      }
      return Panic("OSSemPost: null OS_EVENT_REF dereferenced"), switch;
    }
    var k := pevent.value;
    if pool.events[k].kind != Sem {
      return Done(OS_ERR_EVENT_TYPE), switch;
    }
    if pool.events[k].wait.grp != 0 {
      r, switch := Signal(ex, g, pool, k);
      return;
    }
    r := Count(pool, k);
  }

  /**
   * `OSSemPost` with tasks waiting: the highest waiting one is readied (it
   * leaves the wait list and the timer queue) and the scheduler runs.
   */
  method Signal(ex: SyncExecutor, g: OsGlobals, pool: EventPool, k: nat) returns (r: Outcome<OsErr>, switch: bool)
    requires ex.Valid() && pool.Valid() && k < OS_MAX_EVENTS && pool.events[k].wait.grp != 0
    modifies ex`rdyGrp, ex.rdyTbl, ex.prioTbl, ex`prioHighRdy, ex`tcbHighRdy
    modifies ex.queue`expires, ex.queue`head, ex.queue`items, ex.queue`next, ex.queue`prev
    modifies pool`events
    ensures ex.Valid() && pool.Valid() && pool.free == old(pool.free)
    ensures var w := old(pool.events[k].wait);
            var p := RdyPrio(w);
            p in Waiting(w) && (forall q :: q in Waiting(w) ==> p <= q) &&
            (r.Panic? <==> !old(ex.prioTbl[p]).Slot?) &&
            (r.Done? ==>
               r.value == OS_ERR_NONE &&
               OnlyWaitChanged(old(pool.events), pool.events, k) &&
               Waiting(pool.events[k].wait) == Waiting(w) - {p} &&
               ReadySet(ex.rdyTbl[..]) == old(ReadySet(ex.rdyTbl[..])) + {p} &&
               Unqueued(old(ex.queue.expires), old(ex.queue.items), ex.queue.expires, ex.queue.items, old(ex.prioTbl[p]).i) &&
               (switch <==> HighestReadyPrio(ex.rdyGrp, ex.rdyTbl[..]) < ex.prioCur &&
                            g.intNesting == 0 && g.lockNesting == 0))
  {
    switch := false;
    RdyPrioIsHighestWaiting(pool.events[k].wait);
    ghost var q0, items0, t := ex.queue.expires, ex.queue.items, ex.prioTbl[RdyPrio(pool.events[k].wait)];
    var o := TaskRdy(ex, pool, k);
    if o.Panic? {
      return Panic(o.reason), switch;
    }
    ghost var rs, ev, q, items := ReadySet(ex.rdyTbl[..]), pool.events, ex.queue.expires, ex.queue.items;
    assert Unqueued(q0, items0, q, items, t.i);
    switch := ex.IntCtxSw(g.intNesting as nat, g.lockNesting as nat);
    assert ReadySet(ex.rdyTbl[..]) == rs && pool.events == ev && ex.queue.expires == q && ex.queue.items == items;
    r := Done(OS_ERR_NONE);
  }

  /** `OSSemPost` with nobody waiting: the count goes up unless it is at 65535. */
  method Count(pool: EventPool, k: nat) returns (r: Outcome<OsErr>)
    requires pool.Valid() && k < OS_MAX_EVENTS
    modifies pool`events
    ensures pool.Valid() && pool.free == old(pool.free)
    ensures var c := old(pool.events[k].cnt);
            (c < U16_MAX ==> r == Done(OS_ERR_NONE) && pool.events == old(pool.events)[k := old(pool.events[k]).(cnt := c + 1)]) &&
            (c == U16_MAX ==> r == Done(OS_ERR_SEM_OVF) && pool.events == old(pool.events))
  {
    var c := pool.events[k].cnt;
    if c < U16_MAX {
      pool.SetCount(k, c + 1);
      return Done(OS_ERR_NONE);
    }
    r := Done(OS_ERR_SEM_OVF);
  }

  /** `e1` is `e0` with at most the wait list of block `k` changed. */
  ghost predicate OnlyWaitChanged(e0: seq<Ecb>, e1: seq<Ecb>, k: nat)
  {
    |e1| == |e0| && k < |e0| &&
    e1[k].kind == e0[k].kind && e1[k].link == e0[k].link && e1[k].cnt == e0[k].cnt &&
    forall j :: 0 <= j < |e0| && j != k ==> e1[j] == e0[j]
  }
}

/**
 * The `SyncExecutor` of the kernel: the priority table `os_prio_tbl`
 * (64 task references), the ready bitmap `OSRdyGrp`/`OSRdyTbl`, the current
 * and the highest-ready priority and task, and the timer queue.  The TCB
 * records live in the task arena; `tcbs[i]` is the TCB in arena slot `i`, so
 * a write to a TCB field is an update of that record.  The newer executor
 * (modules/embassy-preempt-executor) and the older one (embassy_preempt) share
 * every operation modelled here except the context-switch decision.
 */
module Executor {
  import opened Wrappers
  import opened Config
  import opened Bitmap
  import opened ReadyList
  import opened Task
  import TQ = TimerQueue

  /** `OS_PRIO` values the executor stores as current or high-ready: 0..63. */
  type Prio = p: nat | p <= OS_LOWEST_PRIO

  ghost predicate AllWellFormed(tcbs: seq<Tcb>)
  {
    forall i {:trigger WellFormed(tcbs[i])} :: 0 <= i < |tcbs| ==> WellFormed(tcbs[i])
  }

  /** A task named at priority p in the table is a claimed TCB of priority p. */
  ghost predicate TableAgrees(tbl: seq<TcbRef>, tcbs: seq<Tcb>)
  {
    forall p :: 0 <= p < |tbl| && tbl[p].Slot? ==> tbl[p].i < |tcbs| && tcbs[tbl[p].i].prio == p
  }

  /** Every ready priority names a task. */
  ghost predicate ReadyHasTask(rdy: seq<bv8>, tbl: seq<TcbRef>)
    requires |rdy| == OS_RDY_TBL_SIZE && |tbl| == OS_LOWEST_PRIO + 1
  {
    forall p: nat :: IsReady(rdy, p) ==> tbl[p].Slot?
  }

  /**
   * The whole effect of `enqueue` of TCB `i`: OR-ing its BitY into the group
   * and its BitX into row Y is `InsertGrp`/`InsertTbl`, exactly its priority
   * becomes ready, and placing it at its priority keeps both table invariants.
   */
  lemma EnqueueState(grp: bv8, rdy: seq<bv8>, tbl: seq<TcbRef>, tcbs: seq<Tcb>, i: nat, row: bv8, grp': bv8)
    requires GroupConsistent(grp, rdy) && |tbl| == OS_LOWEST_PRIO + 1 && i < |tcbs| && WellFormed(tcbs[i])
    requires TableAgrees(tbl, tcbs) && tcbs[i].y < OS_RDY_TBL_SIZE
    requires row == rdy[tcbs[i].y] | tcbs[i].bitX && grp' == grp | tcbs[i].bitY
    ensures var p := tcbs[i].prio;
      grp' == InsertGrp(grp, p) && rdy[tcbs[i].y := row] == InsertTbl(rdy, p) &&
      GroupConsistent(grp', rdy[tcbs[i].y := row]) &&
      ReadySet(rdy[tcbs[i].y := row]) == ReadySet(rdy) + {p} &&
      TableAgrees(tbl[p := Slot(i)], tcbs) &&
      (ReadyHasTask(rdy, tbl) ==> ReadyHasTask(rdy[tcbs[i].y := row], tbl[p := Slot(i)]))
  {
    var p := tcbs[i].prio;
    EnqueueBits(grp, rdy, tcbs[i], row, grp');
    InsertSpec(grp, rdy, p);
    if ReadyHasTask(rdy, tbl) {
      forall q: nat | IsReady(InsertTbl(rdy, p), q)
        ensures tbl[p := Slot(i)][q].Slot?
      {
        assert q in ReadySet(InsertTbl(rdy, p));
      }
    }
  }

  /** The TCB's own Y, BitX and BitY set its priority as `InsertGrp`/`InsertTbl` do. */
  lemma EnqueueBits(grp: bv8, rdy: seq<bv8>, t: Tcb, row: bv8, grp': bv8)
    requires |rdy| == OS_RDY_TBL_SIZE && WellFormed(t) && t.y < OS_RDY_TBL_SIZE
    requires row == rdy[t.y] | t.bitX && grp' == grp | t.bitY
    ensures rdy[t.y := row] == InsertTbl(rdy, t.prio) && grp' == InsertGrp(grp, t.prio)
  {
  }

  /** Clearing priority p's ready bit keeps "every ready priority names a task". */
  lemma UnreadyKeeps(grp: bv8, rdy: seq<bv8>, tbl: seq<TcbRef>, p: nat)
    requires GroupConsistent(grp, rdy) && |tbl| == OS_LOWEST_PRIO + 1 && p <= OS_LOWEST_PRIO
    requires ReadyHasTask(rdy, tbl)
    ensures ReadyHasTask(RemoveTbl(rdy, p), tbl)
  {
    RemoveSpec(grp, rdy, p);
    forall q: nat | IsReady(RemoveTbl(rdy, p), q)
      ensures tbl[q].Slot?
    {
      assert q in ReadySet(RemoveTbl(rdy, p));
    }
  }

  /**
   * The TCB's own Y, BitX and BitY clear its priority as `RemoveTbl`/`RemoveGrp`
   * do: `row` is its row with BitX cleared, `grp'` the group with BitY cleared
   * when that row became zero.
   */
  lemma UnreadyBits(grp: bv8, rdy: seq<bv8>, t: Tcb, row: bv8, grp': bv8)
    requires |rdy| == OS_RDY_TBL_SIZE && WellFormed(t) && t.y < OS_RDY_TBL_SIZE
    requires row == rdy[t.y] & !t.bitX && grp' == if row == 0 then grp & !t.bitY else grp
    ensures rdy[t.y := row] == RemoveTbl(rdy, t.prio) && grp' == RemoveGrp(grp, rdy, t.prio)
  {
  }

  /** The whole effect of `set_task_unready` on the bitmap and the table invariants. */
  lemma UnreadyState(grp: bv8, rdy: seq<bv8>, tbl: seq<TcbRef>, t: Tcb, row: bv8, grp': bv8)
    requires GroupConsistent(grp, rdy) && |tbl| == OS_LOWEST_PRIO + 1 && WellFormed(t) && t.y < OS_RDY_TBL_SIZE
    requires row == rdy[t.y] & !t.bitX && grp' == if row == 0 then grp & !t.bitY else grp
    ensures rdy[t.y := row] == RemoveTbl(rdy, t.prio) && grp' == RemoveGrp(grp, rdy, t.prio)
    ensures GroupConsistent(grp', rdy[t.y := row])
    ensures ReadySet(rdy[t.y := row]) == ReadySet(rdy) - {t.prio}
    ensures ReadyHasTask(rdy, tbl) ==> ReadyHasTask(rdy[t.y := row], tbl)
  {
    UnreadyBits(grp, rdy, t, row, grp');
    RemoveSpec(grp, rdy, t.prio);
    if ReadyHasTask(rdy, tbl) {
      UnreadyKeeps(grp, rdy, tbl, t.prio);
    }
  }

  /** On consistent tables the highest ready priority, when anything is ready, names a task of that priority. */
  lemma HighRdyHasTask(grp: bv8, rdy: seq<bv8>, tbl: seq<TcbRef>, tcbs: seq<Tcb>)
    requires GroupConsistent(grp, rdy) && |tbl| == OS_LOWEST_PRIO + 1
    requires TableAgrees(tbl, tcbs) && ReadyHasTask(rdy, tbl) && grp != 0
    ensures HighestReadyPrio(grp, rdy) <= OS_LOWEST_PRIO
    ensures var h := HighestReadyPrio(grp, rdy); tbl[h].Slot? && tbl[h].i < |tcbs| && tcbs[tbl[h].i].prio == h
  {
    HighestReadyPrioIsMinimum(grp, rdy);
    var h := HighestReadyPrio(grp, rdy);
    assert h in ReadySet(rdy);
  }

  /**
   * Emptying entry `from` keeps "every ready priority names a task" once
   * `from` is no longer ready.
   */
  lemma ClearedHasTask(rdy0: seq<bv8>, rdy: seq<bv8>, tbl: seq<TcbRef>, from: nat)
    requires |rdy0| == OS_RDY_TBL_SIZE && |rdy| == OS_RDY_TBL_SIZE && |tbl| == OS_LOWEST_PRIO + 1
    requires from <= OS_LOWEST_PRIO
    requires ReadyHasTask(rdy0, tbl) && ReadySet(rdy) <= ReadySet(rdy0) - {from}
    ensures ReadyHasTask(rdy, tbl[from := Null])
  {
    forall q: nat | IsReady(rdy, q)
      ensures tbl[from := Null][q].Slot?
    {
      assert q in ReadySet(rdy);
      assert q in ReadySet(rdy0);
    }
  }

  /**
   * If at most `to` became ready in addition and `from` is no longer ready,
   * then after the move every ready priority still names a task.
   */
  lemma MoveHasTask(rdy: seq<bv8>, rdy': seq<bv8>, tbl: seq<TcbRef>, from: nat, to: nat, i: nat)
    requires |rdy| == OS_RDY_TBL_SIZE && |rdy'| == OS_RDY_TBL_SIZE && |tbl| == OS_LOWEST_PRIO + 1
    requires from <= OS_LOWEST_PRIO && to <= OS_LOWEST_PRIO
    requires ReadyHasTask(rdy, tbl) && ReadySet(rdy') <= ReadySet(rdy) - {from} + {to}
    ensures ReadyHasTask(rdy', tbl[from := Null][to := Slot(i)])
  {
    forall q: nat | IsReady(rdy', q)
      ensures tbl[from := Null][to := Slot(i)][q].Slot?
    {
      assert q in ReadySet(rdy');
      if q != to {
        assert q in ReadySet(rdy) && q != from;
      }
    }
  }

  /**
   * The timer queue after slot `i` leaves it (`expires_at := u64::MAX`, then
   * `remove`): only its expiry changes, it is no longer linked, and the
   * other queued tasks keep their order.
   */
  ghost predicate Unqueued(e0: seq<nat>, items0: seq<nat>, e: seq<nat>, items: seq<nat>, i: nat)
  {
    i < |e0| && e == e0[i := TQ.NEVER] && i !in items &&
    (i !in items0 ==> items == items0) &&
    (i in items0 ==>
       exists k :: 0 <= k < |items0| && items0[k] == i && items == items0[..k] + items0[k + 1..])
  }

  /** Unqueuing one slot leaves every other queued slot queued, with its expiry. */
  lemma UnqueuedKeepsOthers(e0: seq<nat>, items0: seq<nat>, e: seq<nat>, items: seq<nat>, i: nat, j: nat)
    requires Unqueued(e0, items0, e, items, i) && j in items0 && j != i
    ensures j in items && (j < |e0| ==> e[j] == e0[j])
  {
    if i in items0 {
      var k :| 0 <= k < |items0| && items0[k] == i && items == items0[..k] + items0[k + 1..];
      var m :| 0 <= m < |items0| && items0[m] == j;
      if m < k {
        assert items[m] == j;
      } else {
        assert items[m - 1] == j;
      }
    }
  }

  class SyncExecutor {
    /** `os_prio_tbl`: the task at each priority, 64 entries. */
    const prioTbl: array<TcbRef>
    /** `OSRdyTbl`: eight rows of ready bits. */
    const rdyTbl: array<bv8>
    /** `OSRdyGrp`: bit y set when row y has a ready priority. */
    var rdyGrp: bv8
    var prioCur: Prio
    var tcbCur: TcbRef
    var prioHighRdy: Prio
    var tcbHighRdy: TcbRef
    /** The TCBs claimed so far, by arena slot. */
    var tcbs: seq<Tcb>
    const queue: TQ.TimerQueue
    /** The alarm handle obtained from the time driver at construction. */
    const alarm: nat

    /**
     * The tables have their sizes, the group byte agrees with the rows, the
     * timer queue is well formed over the claimed TCBs, every TCB's priority
     * fields agree with its priority, and a task in the priority table sits
     * at its own priority.
     */
    ghost predicate Core()
      reads this, prioTbl, rdyTbl, queue
    {
      prioTbl.Length == OS_LOWEST_PRIO + 1 && rdyTbl.Length == OS_RDY_TBL_SIZE &&
      GroupConsistent(rdyGrp, rdyTbl[..]) &&
      queue.Valid() && |queue.expires| == |tcbs| &&
      AllWellFormed(tcbs) && TableAgrees(prioTbl[..], tcbs)
    }

    /** The ready bitmap alone: eight rows and a group byte that agrees with them. */
    ghost predicate ReadyOk()
      reads this, rdyTbl
    {
      rdyTbl.Length == OS_RDY_TBL_SIZE && GroupConsistent(rdyGrp, rdyTbl[..])
    }

    /** In addition, every ready priority has a task in the priority table. */
    ghost predicate Valid()
      reads this, prioTbl, rdyTbl, queue
    {
      Core() && ReadyHasTask(rdyTbl[..], prioTbl[..])
    }

    /** `SyncExecutor::new`: nothing ready, no task, both priorities idle. */
    constructor (alarm: nat)
      ensures Valid() && fresh(prioTbl) && fresh(rdyTbl) && fresh(queue)
      ensures rdyGrp == 0 && ReadySet(rdyTbl[..]) == {} && forall p :: 0 <= p < prioTbl.Length ==> prioTbl[p] == Null
      ensures prioCur == OS_TASK_IDLE_PRIO && prioHighRdy == OS_TASK_IDLE_PRIO && tcbCur == Null && tcbHighRdy == Null
      ensures tcbs == [] && queue.items == [] && queue.setTime == TQ.NEVER && this.alarm == alarm
    {
      prioTbl := new TcbRef[OS_LOWEST_PRIO + 1](_ => DefaultRef());
      rdyTbl := new bv8[OS_RDY_TBL_SIZE](_ => 0);
      rdyGrp := 0;
      prioCur := OS_TASK_IDLE_PRIO;
      tcbCur := DefaultRef();
      prioHighRdy := OS_TASK_IDLE_PRIO;
      tcbHighRdy := DefaultRef();
      tcbs := [];
      queue := new TQ.TimerQueue(0);
      this.alarm := alarm;
      new;
      assert forall p :: !IsReady(rdyTbl[..], p);
    }

    /** `set_cur_highrdy`: the high-ready priority and task become the current ones. */
    method SetCurHighRdy()
      modifies this`prioCur, this`tcbCur
      ensures prioCur == prioHighRdy && tcbCur == tcbHighRdy
    {
      prioCur := prioHighRdy;
      tcbCur := tcbHighRdy;
    }

    /**
     * `enqueue` (and `wake_task_no_pend`, which calls it): OR the task's
     * BitY into the group and its BitX into row Y, and put it in the table at
     * its priority.  Exactly its priority becomes ready in addition.
     */
    method Enqueue(t: TcbRef)
      requires Core() && t.Slot? && t.i < |tcbs|
      modifies this`rdyGrp, rdyTbl, prioTbl
      ensures WellFormed(tcbs[t.i])
      ensures Core() && (old(ReadyHasTask(rdyTbl[..], prioTbl[..])) ==> ReadyHasTask(rdyTbl[..], prioTbl[..]))
      ensures rdyGrp == InsertGrp(old(rdyGrp), tcbs[t.i].prio)
      ensures rdyTbl[..] == InsertTbl(old(rdyTbl[..]), tcbs[t.i].prio)
      ensures prioTbl[..] == old(prioTbl[..])[tcbs[t.i].prio := t]
      ensures ReadySet(rdyTbl[..]) == old(ReadySet(rdyTbl[..])) + {tcbs[t.i].prio}
    {
      assert WellFormed(tcbs[t.i]);
      var tcb := tcbs[t.i];
      ghost var rdy, tbl, grp := rdyTbl[..], prioTbl[..], rdyGrp;
      rdyGrp := rdyGrp | tcb.bitY;
      var row := rdyTbl[tcb.y] | tcb.bitX;
      rdyTbl[tcb.y] := row;
      prioTbl[tcb.prio] := t;
      EnqueueState(grp, rdy, tbl, tcbs, t.i, row, rdyGrp);
      assert rdyTbl[..] == rdy[tcb.y := row];
      assert prioTbl[..] == tbl[tcb.prio := t];
    }

    /**
     * `set_task_unready`: clear the task's BitX in row Y, and its BitY in the
     * group only when that row became zero.  Exactly its priority stops being
     * ready; the priority table is untouched.
     */
    method SetTaskUnready(t: TcbRef)
      requires Core() && t.Slot? && t.i < |tcbs|
      modifies this`rdyGrp, rdyTbl
      ensures WellFormed(tcbs[t.i])
      ensures Core() && (old(Valid()) ==> Valid())
      ensures rdyTbl[..] == RemoveTbl(old(rdyTbl[..]), tcbs[t.i].prio)
      ensures rdyGrp == RemoveGrp(old(rdyGrp), old(rdyTbl[..]), tcbs[t.i].prio)
      ensures ReadySet(rdyTbl[..]) == old(ReadySet(rdyTbl[..])) - {tcbs[t.i].prio}
    {
      assert WellFormed(tcbs[t.i]);
      var tcb := tcbs[t.i];
      ghost var rdy, tbl := rdyTbl[..], prioTbl[..];
      ghost var grp := rdyGrp;
      var row := rdyTbl[tcb.y] & !tcb.bitX;
      rdyTbl[tcb.y] := row;
      if row == 0 {
        rdyGrp := rdyGrp & !tcb.bitY;
      }
      UnreadyState(grp, rdy, tbl, tcb, row, rdyGrp);
      assert rdyTbl[..] == rdy[tcb.y := row];
    }

    /**
     * A write to TCB fields other than the priority fields (`expires_at` and
     * the timer links live in the queue): the tables keep their invariants.
     */
    method SetTcb(i: nat, t: Tcb)
      requires Core() && i < |tcbs| && WellFormed(t) && t.prio == tcbs[i].prio
      modifies this`tcbs
      ensures tcbs == old(tcbs)[i := t]
      ensures Core() && (old(Valid()) ==> Valid())
    {
      tcbs := tcbs[i := t];
    }

    /**
     * The critical section of `OSTaskChangePrio` once its checks passed: the
     * task at `from` moves to the free entry `to` and `from` becomes empty;
     * only if it was ready are its old bits cleared as `set_task_unready`
     * does and the new priority's bits set; its priority fields are rewritten
     * for `to`.  The writes are the source's, ordered so that each step keeps
     * the table invariants.
     */
    method MoveTask(from: nat, to: nat)
      requires Valid() && from <= OS_LOWEST_PRIO && to <= OS_LOWEST_PRIO
      requires prioTbl[from].Slot? && prioTbl[to] == Null
      modifies this`tcbs, this`rdyGrp, rdyTbl, prioTbl
      ensures Valid()
      ensures var t := old(prioTbl[from]);
              prioTbl[..] == old(prioTbl[..])[from := Null][to := t] &&
              t.i < |tcbs| && tcbs == old(tcbs)[t.i := WithPrio(old(tcbs)[t.i], to)]
      ensures ReadySet(rdyTbl[..]) ==
                if from in old(ReadySet(rdyTbl[..])) then old(ReadySet(rdyTbl[..])) - {from} + {to}
                else old(ReadySet(rdyTbl[..]))
    {
      var t, wasReady := Vacate(from);
      Reprio(t.i, to);
      Attach(t, to, wasReady);
    }

    /** The test `OSRdyTbl[OSTCBY] & OSTCBBitX != 0`: the task's priority is ready. */
    method TaskReady(t: TcbRef) returns (r: bool)
      requires Core() && t.Slot? && t.i < |tcbs|
      ensures r <==> tcbs[t.i].prio in ReadySet(rdyTbl[..])
    {
      var tcb := tcbs[t.i];
      assert WellFormed(tcb);
      r := rdyTbl[tcb.y] & tcb.bitX != 0;
    }

    /**
     * The first step of `MoveTask`: the entry at `from` is emptied and the
     * task's ready bits cleared if it was ready.  No entry names the task
     * afterwards.
     */
    method Vacate(from: nat) returns (t: TcbRef, wasReady: bool)
      requires Valid() && from <= OS_LOWEST_PRIO && prioTbl[from].Slot?
      modifies this`rdyGrp, rdyTbl, prioTbl
      ensures Valid() && t == old(prioTbl[from]) && t.i < |tcbs|
      ensures wasReady <==> from in old(ReadySet(rdyTbl[..]))
      ensures prioTbl[..] == old(prioTbl[..])[from := Null]
      ensures forall p :: 0 <= p < prioTbl.Length ==> prioTbl[p] != t
      ensures ReadySet(rdyTbl[..]) == if wasReady then old(ReadySet(rdyTbl[..])) - {from} else old(ReadySet(rdyTbl[..]))
    {
      t := prioTbl[from];
      ghost var rdy0, tbl0 := rdyTbl[..], prioTbl[..];
      wasReady := TaskReady(t);
      prioTbl[from] := Null;
      assert prioTbl[..] == tbl0[from := Null];
      if wasReady {
        SetTaskUnready(t);
      }
      ClearedHasTask(rdy0, rdyTbl[..], tbl0, from);
      forall p | 0 <= p < prioTbl.Length ensures prioTbl[p] != t {
        if p != from {
          assert prioTbl[p] == tbl0[p];
        }
      }
    }

    /**
     * The second half of `MoveTask`: the task, already of priority `to`,
     * enters the free entry `to`, and becomes ready there if it was ready.
     */
    method Attach(t: TcbRef, to: nat, wasReady: bool)
      requires Valid() && to <= OS_LOWEST_PRIO && prioTbl[to] == Null
      requires t.Slot? && t.i < |tcbs| && tcbs[t.i].prio == to
      modifies this`rdyGrp, rdyTbl, prioTbl
      ensures Valid() && prioTbl[..] == old(prioTbl[..])[to := t]
      ensures ReadySet(rdyTbl[..]) == if wasReady then old(ReadySet(rdyTbl[..])) + {to} else old(ReadySet(rdyTbl[..]))
    {
      if wasReady {
        Enqueue(t);
      } else {
        ghost var tbl0 := prioTbl[..];
        prioTbl[to] := t;
        assert prioTbl[..] == tbl0[to := t];
        assert tbl0[to := Null][to := t] == tbl0[to := t];
        MoveHasTask(rdyTbl[..], rdyTbl[..], tbl0, to, to, t.i);
      }
    }

    /**
     * The priority-field writes of `OSTaskChangePrio` on a TCB that no table
     * entry names: it gets the fields of priority `to`.
     */
    method Reprio(i: nat, to: nat)
      requires Core() && i < |tcbs| && to <= OS_LOWEST_PRIO
      requires forall p :: 0 <= p < prioTbl.Length ==> prioTbl[p] != Slot(i)
      modifies this`tcbs
      ensures tcbs == old(tcbs)[i := WithPrio(old(tcbs)[i], to)]
      ensures Core() && (old(Valid()) ==> Valid())
    {
      ghost var tcbs0 := tcbs;
      tcbs := tcbs[i := WithPrio(tcbs[i], to)];
      assert AllWellFormed(tcbs) by {
        forall k | 0 <= k < |tcbs| ensures WellFormed(tcbs[k]) {
          if k != i {
            assert tcbs[k] == tcbs0[k];
          }
        }
      }
    }

    /**
     * `find_highrdy_prio`: the idle priority when nothing is ready, otherwise
     * the numerically smallest ready priority.
     */
    method FindHighRdyPrio() returns (prio: nat)
      requires ReadyOk()
      ensures prio == HighestReadyPrio(rdyGrp, rdyTbl[..])
      ensures ReadySet(rdyTbl[..]) == {} ==> prio == OS_TASK_IDLE_PRIO
      ensures ReadySet(rdyTbl[..]) != {} ==>
                prio in ReadySet(rdyTbl[..]) && forall q :: q in ReadySet(rdyTbl[..]) ==> prio <= q
    {
      HighestReadyPrioIsMinimum(rdyGrp, rdyTbl[..]);
      if rdyGrp == 0 {
        return OS_TASK_IDLE_PRIO;
      }
      var y := TrailingZeros(rdyGrp);
      prio := y * 8 + TrailingZeros(rdyTbl[y]);
    }

    /**
     * `set_highrdy`: the high-ready priority becomes what `find_highrdy_prio`
     * computes and the high-ready task is the table entry at it (by
     * `HighRdyHasTask`, a task of that priority whenever anything is ready).
     */
    method SetHighRdy()
      requires ReadyOk() && prioTbl.Length == OS_LOWEST_PRIO + 1
      modifies this`prioHighRdy, this`tcbHighRdy
      ensures prioHighRdy == HighestReadyPrio(rdyGrp, rdyTbl[..])
      ensures tcbHighRdy == prioTbl[prioHighRdy]
    {
      ghost var rdy, tbl := rdyTbl[..], prioTbl[..];
      HighestReadyPrioBound(rdyGrp, rdy);
      if rdyGrp == 0 {
        prioHighRdy := OS_TASK_IDLE_PRIO;
        tcbHighRdy := prioTbl[OS_TASK_IDLE_PRIO];
        return;
      }
      var y := TrailingZeros(rdyGrp);
      var prio := y * 8 + TrailingZeros(rdyTbl[y]);
      prioHighRdy := prio;
      tcbHighRdy := prioTbl[prio];
    }

    /** `set_highrdy_with_prio`. */
    method SetHighRdyWithPrio(prio: nat)
      requires prioTbl.Length == OS_LOWEST_PRIO + 1 && prio <= OS_LOWEST_PRIO
      modifies this`prioHighRdy, this`tcbHighRdy
      ensures prioHighRdy == prio && tcbHighRdy == prioTbl[prio]
    {
      prioHighRdy := prio;
      tcbHighRdy := prioTbl[prio];
    }

    /** `prio_exist`: the table entry holds a pointer (a task or a reservation). */
    method PrioExist(prio: nat) returns (b: bool)
      requires prioTbl.Length == OS_LOWEST_PRIO + 1 && prio <= OS_LOWEST_PRIO
      ensures b <==> prioTbl[prio] != Null
      ensures Valid() && !b ==> !IsReady(rdyTbl[..], prio)
    {
      b := prioTbl[prio].IsSome();
    }

    /**
     * `reserve_bit`: the entry takes the dangling reservation pointer, so
     * `prio_exist` reads true; no other entry changes.
     */
    method ReserveBit(prio: nat)
      requires prioTbl.Length == OS_LOWEST_PRIO + 1 && prio <= OS_LOWEST_PRIO
      modifies prioTbl
      ensures prioTbl[..] == old(prioTbl[..])[prio := Reserved] && prioTbl[prio].IsSome()
      ensures old(Core()) ==> Core()
      ensures old(Valid()) && old(!IsReady(rdyTbl[..], prio)) ==> Valid()
    {
      prioTbl[prio] := Reserved;
    }

    /** `clear_bit`: the entry loses its pointer, so `prio_exist` reads false; no other entry changes. */
    method ClearBit(prio: nat)
      requires prioTbl.Length == OS_LOWEST_PRIO + 1 && prio <= OS_LOWEST_PRIO
      modifies prioTbl
      ensures prioTbl[..] == old(prioTbl[..])[prio := Null] && !prioTbl[prio].IsSome()
      ensures old(Core()) ==> Core()
      ensures old(Valid()) && old(!IsReady(rdyTbl[..], prio)) ==> Valid()
    {
      prioTbl[prio] := Null;
    }

    /**
     * The ready-queue and table writes of `OSTaskDel`: the task at `p` stops
     * being ready (as `set_task_unready` does) and its entry loses its
     * pointer; the TCBs and the timer queue are untouched.
     */
    method Unlist(p: nat)
      requires Valid() && p <= OS_LOWEST_PRIO && prioTbl[p].Slot?
      modifies this`rdyGrp, rdyTbl, prioTbl
      ensures Valid()
      ensures prioTbl[..] == old(prioTbl[..])[p := Null]
      ensures ReadySet(rdyTbl[..]) == old(ReadySet(rdyTbl[..])) - {p}
    {
      var t := prioTbl[p];
      SetTaskUnready(t);
      ClearBit(p);
    }

    /**
     * The timer-queue writes of `OSTaskDel`: `expires_at := u64::MAX`, then
     * `remove`; the task in slot `i` is no longer waiting and the others keep
     * their order.
     */
    method Unqueue(i: nat)
      requires Valid() && i < |tcbs|
      modifies queue`expires, queue`head, queue`items, queue`next, queue`prev
      ensures Valid()
      ensures Unqueued(old(queue.expires), old(queue.items), queue.expires, queue.items, i)
    {
      queue.SetExpires(i, TQ.NEVER);
      queue.Remove(i);
    }

    /**
     * The executor writes of a successful `OSTaskDel` on the task at `p`:
     * `Unlist`, the new TCB `z` (same priority), then `Unqueue`.
     */
    method Delete(p: nat, z: Tcb)
      requires Valid() && p <= OS_LOWEST_PRIO && prioTbl[p].Slot? && prioTbl[p].i < |tcbs|
      requires WellFormed(z) && z.prio == p
      modifies this`tcbs, this`rdyGrp, rdyTbl, prioTbl
      modifies queue`expires, queue`head, queue`items, queue`next, queue`prev
      ensures Valid()
      ensures prioTbl[..] == old(prioTbl[..])[p := Null]
      ensures ReadySet(rdyTbl[..]) == old(ReadySet(rdyTbl[..])) - {p}
      ensures tcbs == old(tcbs)[old(prioTbl[p]).i := z]
      ensures Unqueued(old(queue.expires), old(queue.items), queue.expires, queue.items, old(prioTbl[p]).i)
    {
      var i := prioTbl[p].i;
      Unlist(p);
      SetTcb(i, z);
      Unqueue(i);
    }

    /**
     * The executor writes of a successful `OSTimeDlyResume` on the task at
     * `p`: `expires_at := u64::MAX`, `enqueue`, and `remove` from the timer
     * queue.  The table is unchanged, `p` becomes ready, the task no longer
     * waits and the other delayed tasks stay queued in order.
     */
    method Resume(p: nat)
      requires Valid() && p <= OS_LOWEST_PRIO && prioTbl[p].Slot?
      modifies this`rdyGrp, rdyTbl, prioTbl
      modifies queue`expires, queue`head, queue`items, queue`next, queue`prev
      ensures Valid() && prioTbl[..] == old(prioTbl[..])
      ensures ReadySet(rdyTbl[..]) == old(ReadySet(rdyTbl[..])) + {p}
      ensures Unqueued(old(queue.expires), old(queue.items), queue.expires, queue.items, prioTbl[p].i)
    {
      var t := prioTbl[p];
      ghost var tbl0 := prioTbl[..];
      Unqueue(t.i);
      Enqueue(t);
      assert prioTbl[..] == tbl0;
    }

    /**
     * The decision of the newer `IntCtxSW`: switch only when the highest ready
     * priority is strictly better than the current one and neither an
     * interrupt nor the scheduler lock is active; a switch records that
     * priority and its task as high-ready.  The switch itself
     * (`interrupt_poll`) is not part of this model.
     */
    method IntCtxSw(intNesting: nat, lockNesting: nat) returns (switch: bool)
      requires ReadyOk() && prioTbl.Length == OS_LOWEST_PRIO + 1
      modifies this`prioHighRdy, this`tcbHighRdy
      ensures old(Valid()) ==> Valid()
      ensures switch <==> HighestReadyPrio(rdyGrp, rdyTbl[..]) < prioCur && intNesting == 0 && lockNesting == 0
      ensures switch ==> prioHighRdy in ReadySet(rdyTbl[..]) && prioHighRdy < prioCur &&
                         prioHighRdy == HighestReadyPrio(rdyGrp, rdyTbl[..]) && tcbHighRdy == prioTbl[prioHighRdy]
      ensures !switch ==> prioHighRdy == old(prioHighRdy) && tcbHighRdy == old(tcbHighRdy)
    {
      var newPrio := FindHighRdyPrio();
      if newPrio >= prioCur {
        switch := false;
      } else if intNesting == 0 && lockNesting == 0 {
        SetHighRdyWithPrio(newPrio);
        switch := true;
      } else {
        switch := false;
      }
    }

    /**
     * The decision of the older `IntCtxSW`: the same comparison, with no
     * interrupt or lock check.
     */
    method IntCtxSwLegacy() returns (switch: bool)
      requires ReadyOk() && prioTbl.Length == OS_LOWEST_PRIO + 1
      modifies this`prioHighRdy, this`tcbHighRdy
      ensures switch <==> HighestReadyPrio(rdyGrp, rdyTbl[..]) < prioCur
      ensures switch ==> prioHighRdy in ReadySet(rdyTbl[..]) && prioHighRdy < prioCur &&
                         prioHighRdy == HighestReadyPrio(rdyGrp, rdyTbl[..]) && tcbHighRdy == prioTbl[prioHighRdy]
      ensures !switch ==> prioHighRdy == old(prioHighRdy) && tcbHighRdy == old(tcbHighRdy)
    {
      var newPrio := FindHighRdyPrio();
      if newPrio >= prioCur {
        switch := false;
      } else {
        SetHighRdyWithPrio(newPrio);
        switch := true;
      }
    }

    /**
     * `print_ready_queue`: the priorities it reports, scanning 0..63 and
     * testing bit `i % 8` of row `i / 8`; they are exactly the ready
     * priorities, in increasing order.
     */
    method PrintReadyQueue() returns (ready: seq<nat>)
      requires rdyTbl.Length == OS_RDY_TBL_SIZE
      ensures forall p :: p in ready <==> p in ReadySet(rdyTbl[..])
      ensures forall a, b :: 0 <= a < b < |ready| ==> ready[a] < ready[b]
    {
      ready := [];
      for i := 0 to OS_LOWEST_PRIO + 1
        invariant forall p: nat :: p in ready <==> p < i && IsReady(rdyTbl[..], p)
        invariant forall a :: 0 <= a < |ready| ==> ready[a] < i
        invariant forall a, b :: 0 <= a < b < |ready| ==> ready[a] < ready[b]
      {
        if rdyTbl[i / 8] & Bit(i % 8) != 0 {
          ready := ready + [i];
        }
      }
    }

    /**
     * The `on_task` callback `wake_task_no_pend` applied in order to the tasks
     * `dequeue_expired` returned: each one's priority becomes ready and the
     * table points at it.
     */
    method WakeAll(ws: seq<nat>)
      requires Core() && forall k :: 0 <= k < |ws| ==> ws[k] < |tcbs|
      modifies this`rdyGrp, rdyTbl, prioTbl
      ensures Core() && (old(Valid()) ==> Valid())
      ensures ReadySet(rdyTbl[..]) == old(ReadySet(rdyTbl[..])) + set k | 0 <= k < |ws| :: tcbs[ws[k]].prio
    {
      ghost var wasReady := ReadyHasTask(rdyTbl[..], prioTbl[..]);
      ghost var start := ReadySet(rdyTbl[..]);
      ghost var woken: set<nat> := {};
      for n := 0 to |ws|
        invariant Core() && (wasReady ==> ReadyHasTask(rdyTbl[..], prioTbl[..]))
        invariant woken == set k | 0 <= k < n :: tcbs[ws[k]].prio
        invariant ReadySet(rdyTbl[..]) == start + woken
      {
        Enqueue(Slot(ws[n]));
        woken := woken + {tcbs[ws[n]].prio};
        assert (set k | 0 <= k < n + 1 :: tcbs[ws[k]].prio) == (set k | 0 <= k < n :: tcbs[ws[k]].prio) + {tcbs[ws[n]].prio};
      }
    }

    /**
     * `OS_TASK_STORAGE::init` for priority `prio`: claim fresh storage (a new
     * slot, not waiting in the timer queue), decompose the priority, spawn,
     * enqueue, zero the register table, and return `OS_ERR_NONE`.  Fresh
     * storage is never spawned, so the spawn panic cannot happen.  `legacy`
     * selects the older TCB defaults (`is_in_thread_poll` true).
     */
    method InitTcb(prio: nat, legacy: bool) returns (err: OsErr, t: TcbRef)
      requires Valid() && prio <= OS_LOWEST_PRIO
      modifies this`tcbs, this`rdyGrp, rdyTbl, prioTbl, queue`expires, queue`next, queue`prev
      ensures Valid() && err == OS_ERR_NONE
      ensures t == Slot(|old(tcbs)|) && |tcbs| == |old(tcbs)| + 1 && tcbs[..t.i] == old(tcbs)
      ensures tcbs[t.i].prio == prio && tcbs[t.i].spawned && tcbs[t.i].stk.None? &&
              !tcbs[t.i].needsStackSave && tcbs[t.i].inThreadPoll == legacy
      ensures |tcbs[t.i].regTbl| == OS_TASK_REG_TBL_SIZE && forall k :: 0 <= k < |tcbs[t.i].regTbl| ==> tcbs[t.i].regTbl[k] == 0
      ensures prioTbl[..] == old(prioTbl[..])[prio := t]
      ensures rdyGrp == InsertGrp(old(rdyGrp), prio) && rdyTbl[..] == InsertTbl(old(rdyTbl[..]), prio)
      ensures ReadySet(rdyTbl[..]) == old(ReadySet(rdyTbl[..])) + {prio}
      ensures queue.items == old(queue.items) && queue.expires == old(queue.expires) + [TQ.NEVER]
    {
      var i := queue.AddSlot();
      var claimed := if legacy then NewTcbLegacy() else NewTcb();
      var o := InitStorage(claimed, prio);
      if o.Panic? {
        assert false;
      }
      tcbs := tcbs + [o.value];
      t := Slot(i);
      Enqueue(t);
      var z := ZeroRegTbl(tcbs[i]);
      tcbs := tcbs[i := z];
      err := OS_ERR_NONE;
    }
  }
}

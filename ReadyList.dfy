/**
 * The ready list of uC/OS-II: a group byte and an 8-row table.  A priority p
 * (0 highest, 63 lowest) lives in row `p >> 3` at column `p & 7`; for the u8
 * priorities used here these are p / 8 and p % 8.  Bit y of the group is set
 * exactly when row y is non-zero.  The executor's OSRdyGrp/OSRdyTbl follow this
 * layout, and so do the OSEventGrp/OSEventTbl wait lists of an event.
 */
module ReadyList {
  import opened Bitmap
  import opened Config

  /** `OSTCBY`: the row of priority p (`p >> 3`). */
  function PrioY(p: nat): nat { p / 8 }

  /** `OSTCBX`: the column of priority p (`p & 0x07`). */
  function PrioX(p: nat): nat { p % 8 }

  /** The row and the column together give the priority back. */
  lemma PrioSplit(p: nat)
    requires p <= OS_LOWEST_PRIO
    ensures PrioY(p) < OS_RDY_TBL_SIZE && PrioX(p) < 8
    ensures 8 * PrioY(p) + PrioX(p) == p
  {
  }

  /** Priority p is marked ready: bit `p % 8` of row `p / 8` is set. */
  predicate IsReady(tbl: seq<bv8>, p: nat)
    requires |tbl| == OS_RDY_TBL_SIZE
  {
    p <= OS_LOWEST_PRIO && BitSet(tbl[PrioY(p)], PrioX(p))
  }

  /** The set of ready priorities. */
  function ReadySet(tbl: seq<bv8>): set<nat>
    requires |tbl| == OS_RDY_TBL_SIZE
  {
    set p | 0 <= p <= OS_LOWEST_PRIO && IsReady(tbl, p)
  }

  /** Group bit y is set iff row y is non-zero. */
  predicate GroupConsistent(grp: bv8, tbl: seq<bv8>)
  {
    |tbl| == OS_RDY_TBL_SIZE &&
    forall y :: 0 <= y < OS_RDY_TBL_SIZE ==> (BitSet(grp, y) <==> tbl[y] != 0)
  }

  /**
   * `find_highrdy_prio`: the idle priority when the group is empty, otherwise
   * `8 * tz(grp) + tz(tbl[tz(grp)])`.
   */
  function HighestReadyPrio(grp: bv8, tbl: seq<bv8>): nat
    requires |tbl| == OS_RDY_TBL_SIZE
  {
    if grp == 0 then OS_TASK_IDLE_PRIO
    else
      var y := TrailingZeros(grp);
      if y < OS_RDY_TBL_SIZE then 8 * y + TrailingZeros(tbl[y]) else OS_TASK_IDLE_PRIO
  }

  /**
   * On a consistent ready list the group is empty iff no priority is ready, and
   * otherwise HighestReadyPrio is the numerically smallest ready priority.
   */
  lemma HighestReadyPrioIsMinimum(grp: bv8, tbl: seq<bv8>)
    requires GroupConsistent(grp, tbl)
    ensures grp == 0 <==> ReadySet(tbl) == {}
    ensures grp == 0 ==> HighestReadyPrio(grp, tbl) == OS_TASK_IDLE_PRIO
    ensures grp != 0 ==> HighestReadyPrio(grp, tbl) in ReadySet(tbl)
    ensures forall q :: q in ReadySet(tbl) ==> HighestReadyPrio(grp, tbl) <= q
  {
    if grp != 0 {
      TrailingZerosSpec(grp);
      var y := TrailingZeros(grp);
      assert tbl[y] != 0;
      TrailingZerosSpec(tbl[y]);
      var x := TrailingZeros(tbl[y]);
      var p := 8 * y + x;
      assert PrioY(p) == y && PrioX(p) == x;
      assert p in ReadySet(tbl);
      forall q | q in ReadySet(tbl) ensures p <= q {
        var qy, qx := PrioY(q), PrioX(q);
        assert tbl[qy] != 0;
        assert BitSet(grp, qy);
        assert y <= qy;
        if qy == y {
          assert x <= qx;
        }
      }
    }
  }

  /** On a consistent ready list the row search stays inside the table and the result is a priority. */
  lemma HighestReadyPrioBound(grp: bv8, tbl: seq<bv8>)
    requires GroupConsistent(grp, tbl)
    ensures grp != 0 ==> TrailingZeros(grp) < OS_RDY_TBL_SIZE
    ensures HighestReadyPrio(grp, tbl) <= OS_LOWEST_PRIO
  {
    if grp != 0 {
      TrailingZerosSpec(grp);
      TrailingZerosSpec(tbl[TrailingZeros(grp)]);
    }
  }

  /** Two priorities with the same row and column are equal. */
  lemma SamePrio(p: nat, q: nat)
    ensures PrioY(p) == PrioY(q) && PrioX(p) == PrioX(q) <==> p == q
  {
  }

  lemma SetBitSpec(b: bv8, i: nat, j: nat)
    requires i < 8 && j < 8
    ensures BitSet(b | Bit(i), j) <==> BitSet(b, j) || i == j
    ensures b | Bit(i) != 0
  {
  }

  lemma ClearBitSpec(b: bv8, i: nat, j: nat)
    requires i < 8 && j < 8
    ensures BitSet(b & !Bit(i), j) <==> BitSet(b, j) && i != j
  {
  }

  /** Setting priority p's bits (`enqueue`). */
  function InsertGrp(grp: bv8, p: nat): bv8
    requires p <= OS_LOWEST_PRIO
  {
    grp | Bit(PrioY(p))
  }

  function InsertTbl(tbl: seq<bv8>, p: nat): seq<bv8>
    requires |tbl| == OS_RDY_TBL_SIZE && p <= OS_LOWEST_PRIO
  {
    tbl[PrioY(p) := tbl[PrioY(p)] | Bit(PrioX(p))]
  }

  /** Clearing priority p's bits (`set_task_unready`). */
  function RemoveTbl(tbl: seq<bv8>, p: nat): seq<bv8>
    requires |tbl| == OS_RDY_TBL_SIZE && p <= OS_LOWEST_PRIO
  {
    tbl[PrioY(p) := tbl[PrioY(p)] & !Bit(PrioX(p))]
  }

  function RemoveGrp(grp: bv8, tbl: seq<bv8>, p: nat): bv8
    requires |tbl| == OS_RDY_TBL_SIZE && p <= OS_LOWEST_PRIO
  {
    if RemoveTbl(tbl, p)[PrioY(p)] == 0 then grp & !Bit(PrioY(p)) else grp
  }

  /** Inserting p makes exactly p ready in addition and keeps the group consistent. */
  lemma InsertSpec(grp: bv8, tbl: seq<bv8>, p: nat)
    requires GroupConsistent(grp, tbl) && p <= OS_LOWEST_PRIO
    ensures GroupConsistent(InsertGrp(grp, p), InsertTbl(tbl, p))
    ensures ReadySet(InsertTbl(tbl, p)) == ReadySet(tbl) + {p}
  {
    var tbl', grp' := InsertTbl(tbl, p), InsertGrp(grp, p);
    forall q | 0 <= q <= OS_LOWEST_PRIO
      ensures IsReady(tbl', q) <==> IsReady(tbl, q) || q == p
    {
      if PrioY(q) == PrioY(p) {
        SetBitSpec(tbl[PrioY(p)], PrioX(p), PrioX(q));
        SamePrio(p, q);
      }
    }
    InsertGroup(grp, tbl, p);
  }

  lemma InsertGroup(grp: bv8, tbl: seq<bv8>, p: nat)
    requires GroupConsistent(grp, tbl) && p <= OS_LOWEST_PRIO
    ensures GroupConsistent(InsertGrp(grp, p), InsertTbl(tbl, p))
  {
    var tbl', grp' := InsertTbl(tbl, p), InsertGrp(grp, p);
    forall y | 0 <= y < OS_RDY_TBL_SIZE
      ensures BitSet(grp', y) <==> tbl'[y] != 0
    {
      SetBitSpec(grp, PrioY(p), y);
      if y == PrioY(p) {
        SetBitSpec(tbl[y], PrioX(p), PrioX(p));
      }
    }
  }

  /** Removing p makes exactly p not ready and keeps the group consistent. */
  lemma RemoveSpec(grp: bv8, tbl: seq<bv8>, p: nat)
    requires GroupConsistent(grp, tbl) && p <= OS_LOWEST_PRIO
    ensures GroupConsistent(RemoveGrp(grp, tbl, p), RemoveTbl(tbl, p))
    ensures ReadySet(RemoveTbl(tbl, p)) == ReadySet(tbl) - {p}
  {
    var tbl', grp' := RemoveTbl(tbl, p), RemoveGrp(grp, tbl, p);
    forall q | 0 <= q <= OS_LOWEST_PRIO
      ensures IsReady(tbl', q) <==> IsReady(tbl, q) && q != p
    {
      if PrioY(q) == PrioY(p) {
        ClearBitSpec(tbl[PrioY(p)], PrioX(p), PrioX(q));
        SamePrio(p, q);
      }
    }
    forall y | 0 <= y < OS_RDY_TBL_SIZE
      ensures BitSet(grp', y) <==> tbl'[y] != 0
    {
      ClearBitSpec(grp, PrioY(p), y);
    }
  }
}

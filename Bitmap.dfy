/**
 * The 64-priority ready bitmap of uC/OS-II as kept by the executor (and, with
 * the same layout, by every event wait list): a group byte whose bit y says
 * "row y has a ready task" and eight row bytes whose bit x says "priority
 * 8*y + x is ready", plus the OSUnMapTbl lookup table that resolves the lowest
 * set bit of a byte.
 */
module Bitmap {
  /** The byte with only bit i set: `1 << i`, written out bit by bit. */
  function Bit(i: nat): bv8
    requires i < 8
  {
    if i == 0 then 0x01 else if i == 1 then 0x02 else if i == 2 then 0x04 else if i == 3 then 0x08
    else if i == 4 then 0x10 else if i == 5 then 0x20 else if i == 6 then 0x40 else 0x80
  }

  /** The byte shift `1 << n` of the source is `Bit(n)`. */
  lemma ShiftIsBit(n: bv8)
    requires n < 8
    ensures (1 as bv8) << n == Bit(n as nat)
  {
    if n == 0 {} else if n == 1 {} else if n == 2 {} else if n == 3 {}
    else if n == 4 {} else if n == 5 {} else if n == 6 {} else {}
  }

  predicate BitSet(b: bv8, i: nat)
    requires i < 8
  {
    b & Bit(i) != 0
  }

  /** n is the position of the lowest set bit of b. */
  predicate IsLowestSetBit(b: bv8, n: nat)
  {
    n < 8 && BitSet(b, n) && forall i :: 0 <= i < n ==> !BitSet(b, i)
  }

  /** `u8::trailing_zeros`, scanning from bit i upwards (8 for a zero byte). */
  function TrailingZerosFrom(b: bv8, i: nat): nat
    requires i <= 8
    decreases 8 - i
  {
    if i == 8 then 8
    else if BitSet(b, i) then i
    else TrailingZerosFrom(b, i + 1)
  }

  function TrailingZeros(b: bv8): nat
  {
    TrailingZerosFrom(b, 0)
  }

  lemma {:induction false} TrailingZerosFromSpec(b: bv8, i: nat)
    requires i <= 8
    requires forall j :: 0 <= j < i ==> !BitSet(b, j)
    ensures b == 0 ==> TrailingZerosFrom(b, i) == 8
    ensures b != 0 ==> IsLowestSetBit(b, TrailingZerosFrom(b, i))
    decreases 8 - i
  {
    if i == 8 {
      assert !BitSet(b, 0) && !BitSet(b, 1) && !BitSet(b, 2) && !BitSet(b, 3);
      assert !BitSet(b, 4) && !BitSet(b, 5) && !BitSet(b, 6) && !BitSet(b, 7);
    } else if !BitSet(b, i) {
      TrailingZerosFromSpec(b, i + 1);
    } else {
      assert b != 0;
    }
  }

  /** `trailing_zeros` is 8 for zero and the lowest set bit otherwise. */
  lemma TrailingZerosSpec(b: bv8)
    ensures b == 0 <==> TrailingZeros(b) == 8
    ensures b != 0 ==> IsLowestSetBit(b, TrailingZeros(b))
  {
    TrailingZerosFromSpec(b, 0);
  }

  /** A byte has at most one lowest set bit. */
  lemma LowestSetBitUnique(b: bv8, n: nat, m: nat)
    requires IsLowestSetBit(b, n) && IsLowestSetBit(b, m)
    ensures n == m
  {
  }

  /**
   * OSUnMapTbl: entry b is the index of the lowest set bit of b (0 for b == 0).
   * Row r holds the entries 16*r .. 16*r + 15.
   */
  const OSUnMapTbl: seq<seq<bv8>> := [
    [0, 0, 1, 0, 2, 0, 1, 0, 3, 0, 1, 0, 2, 0, 1, 0],  // 0x00 to 0x0F
    [4, 0, 1, 0, 2, 0, 1, 0, 3, 0, 1, 0, 2, 0, 1, 0],  // 0x10 to 0x1F
    [5, 0, 1, 0, 2, 0, 1, 0, 3, 0, 1, 0, 2, 0, 1, 0],  // 0x20 to 0x2F
    [4, 0, 1, 0, 2, 0, 1, 0, 3, 0, 1, 0, 2, 0, 1, 0],  // 0x30 to 0x3F
    [6, 0, 1, 0, 2, 0, 1, 0, 3, 0, 1, 0, 2, 0, 1, 0],  // 0x40 to 0x4F
    [4, 0, 1, 0, 2, 0, 1, 0, 3, 0, 1, 0, 2, 0, 1, 0],  // 0x50 to 0x5F
    [5, 0, 1, 0, 2, 0, 1, 0, 3, 0, 1, 0, 2, 0, 1, 0],  // 0x60 to 0x6F
    [4, 0, 1, 0, 2, 0, 1, 0, 3, 0, 1, 0, 2, 0, 1, 0],  // 0x70 to 0x7F
    [7, 0, 1, 0, 2, 0, 1, 0, 3, 0, 1, 0, 2, 0, 1, 0],  // 0x80 to 0x8F
    [4, 0, 1, 0, 2, 0, 1, 0, 3, 0, 1, 0, 2, 0, 1, 0],  // 0x90 to 0x9F
    [5, 0, 1, 0, 2, 0, 1, 0, 3, 0, 1, 0, 2, 0, 1, 0],  // 0xA0 to 0xAF
    [4, 0, 1, 0, 2, 0, 1, 0, 3, 0, 1, 0, 2, 0, 1, 0],  // 0xB0 to 0xBF
    [6, 0, 1, 0, 2, 0, 1, 0, 3, 0, 1, 0, 2, 0, 1, 0],  // 0xC0 to 0xCF
    [4, 0, 1, 0, 2, 0, 1, 0, 3, 0, 1, 0, 2, 0, 1, 0],  // 0xD0 to 0xDF
    [5, 0, 1, 0, 2, 0, 1, 0, 3, 0, 1, 0, 2, 0, 1, 0],  // 0xE0 to 0xEF
    [4, 0, 1, 0, 2, 0, 1, 0, 3, 0, 1, 0, 2, 0, 1, 0]   // 0xF0 to 0xFF
  ]

  /** The table as a flat 256-entry array indexed by a byte: `OSUnMapTbl[b]`. */
  function UnMap(b: bv8): bv8
  {
    OSUnMapTbl[(b >> 4) as int][(b & 0xF) as int]
  }

  /** The table has exactly 256 entries, 16 rows of 16. */
  lemma UnMapTableShape()
    ensures |OSUnMapTbl| == 16
    ensures forall r :: 0 <= r < 16 ==> |OSUnMapTbl[r]| == 16
  {
  }

  /** Bit n of b is set and every bit below it is clear, as one byte test. */
  predicate LowestSetBitMask(b: bv8, n: bv8)
  {
    n < 8 && (b >> n) & 1 == 1 && b & ((1 << n) - 1) == 0
  }

  lemma LowestSetBitMaskIff(b: bv8, n: bv8)
    requires n < 8
    ensures LowestSetBitMask(b, n) <==> IsLowestSetBit(b, n as nat)
  {
    if LowestSetBitMask(b, n) {
      forall i | 0 <= i < n as nat
        ensures !BitSet(b, i)
      {
      }
    }
    if IsLowestSetBit(b, n as nat) {
      assert n > 0 ==> !BitSet(b, 0);
      assert n > 1 ==> !BitSet(b, 1);
      assert n > 2 ==> !BitSet(b, 2);
      assert n > 3 ==> !BitSet(b, 3);
      assert n > 4 ==> !BitSet(b, 4);
      assert n > 5 ==> !BitSet(b, 5);
      assert n > 6 ==> !BitSet(b, 6);
    }
  }

  /** Checked entry by entry, one row of the table per case. */
  lemma UnMapLowestSetBit(b: bv8)
    requires b != 0
    ensures LowestSetBitMask(b, UnMap(b))
  {
    var r := b >> 4;
    if r == 0 {} else if r == 1 {} else if r == 2 {} else if r == 3 {}
    else if r == 4 {} else if r == 5 {} else if r == 6 {} else if r == 7 {}
    else if r == 8 {} else if r == 9 {} else if r == 10 {} else if r == 11 {}
    else if r == 12 {} else if r == 13 {} else if r == 14 {} else {}
  }

  /**
   * Every entry of OSUnMapTbl is the lowest set bit of its index, which is
   * what `trailing_zeros` computes; entry 0 is 0.
   */
  lemma UnMapIsTrailingZeros(b: bv8)
    ensures b == 0 ==> UnMap(b) == 0
    ensures b != 0 ==> UnMap(b) as nat == TrailingZeros(b) && IsLowestSetBit(b, UnMap(b) as nat)
    ensures UnMap(b) < 8
  {
    if b != 0 {
      UnMapLowestSetBit(b);
      LowestSetBitMaskIff(b, UnMap(b));
      TrailingZerosSpec(b);
      LowestSetBitUnique(b, UnMap(b) as nat, TrailingZeros(b));
    }
  }
}

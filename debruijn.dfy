/**
 * Lowest and highest set bit by De Bruijn multiplication: the lowest set bit is
 * isolated with `v & (!v + 1)`, multiplied (wrapping) by a De Bruijn constant
 * whose top window then holds a distinct value for each bit position, and that
 * window is looked up in a table that maps it back to the position.
 */
module DeBruijn {
  import opened Bits
  import opened BitReverse

  const DEBRUIJIN_NUMBER_8: bv8 := 0x17
  const DEBRUIJIN_INDICES_8: seq<bv8> :=
    [00, 01, 02, 04, 07, 03, 06, 05]
  const DEBRUIJIN_SHIFT_8: bv8 := 5

  const DEBRUIJIN_NUMBER_16: bv16 := 0x09AF
  const DEBRUIJIN_INDICES_16: seq<bv16> :=
    [00, 01, 02, 05, 03, 09, 06, 11, 15, 04, 08, 10, 14, 07, 13, 12]
  const DEBRUIJIN_SHIFT_16: bv16 := 12

  const DEBRUIJIN_NUMBER_32: bv32 := 0x0465_3ADF
  const DEBRUIJIN_INDICES_32: seq<bv32> :=
    [00, 01, 02, 06, 03, 11, 07, 16, 04, 14, 12, 21, 08, 23, 17, 26] +
    [31, 05, 10, 15, 13, 20, 22, 25, 30, 09, 19, 24, 29, 18, 28, 27]
  const DEBRUIJIN_SHIFT_32: bv32 := 27

  const DEBRUIJIN_NUMBER_64: bv64 := 0x0218_A392_CD3D_5DBF
  const DEBRUIJIN_INDICES_64: seq<bv64> :=
    [00, 01, 02, 07, 03, 13, 08, 19] +
    [04, 25, 14, 28, 09, 34, 20, 40] +
    [05, 17, 26, 38, 15, 46, 29, 48] +
    [10, 31, 35, 54, 21, 50, 41, 57] +
    [63, 06, 12, 18, 24, 27, 33, 39] +
    [16, 37, 45, 47, 30, 53, 49, 56] +
    [62, 11, 23, 32, 36, 44, 52, 55] +
    [61, 22, 43, 51, 60, 42, 59, 58]
  const DEBRUIJIN_SHIFT_64: bv64 := 58

  /** The lowest set bit of `value` alone, or 0 when `value` is 0. */
  function Isolate8(value: bv8): bv8
  {
    value & (!value + 1)
  }

  /** The table index: the top 3 bits of the wrapping product. */
  function Window8(isolated: bv8): bv8
  {
    DEBRUIJIN_NUMBER_8 * isolated >> DEBRUIJIN_SHIFT_8
  }

  /**
   * The table step: the window of the product selects the position. The
   * window has 3 bits, so the lookup is always within the table.
   */
  function Lookup8(isolated: bv8): bv8
  {
    DEBRUIJIN_INDICES_8[Window8(isolated) as bv3]
  }

  /** The lowest set bit of `value` alone, or 0 when `value` is 0. */
  function Isolate16(value: bv16): bv16
  {
    value & (!value + 1)
  }

  /** The table index: the top 4 bits of the wrapping product. */
  function Window16(isolated: bv16): bv16
  {
    DEBRUIJIN_NUMBER_16 * isolated >> DEBRUIJIN_SHIFT_16
  }

  /**
   * The table step: the window of the product selects the position. The
   * window has 4 bits, so the lookup is always within the table.
   */
  function Lookup16(isolated: bv16): bv16
  {
    DEBRUIJIN_INDICES_16[Window16(isolated) as bv4]
  }

  /** The lowest set bit of `value` alone, or 0 when `value` is 0. */
  function Isolate32(value: bv32): bv32
  {
    value & (!value + 1)
  }

  /** The table index: the top 5 bits of the wrapping product. */
  function Window32(isolated: bv32): bv32
  {
    DEBRUIJIN_NUMBER_32 * isolated >> DEBRUIJIN_SHIFT_32
  }

  /**
   * The table step: the window of the product selects the position. The
   * window has 5 bits, so the lookup is always within the table.
   */
  function Lookup32(isolated: bv32): bv32
  {
    DEBRUIJIN_INDICES_32[Window32(isolated) as bv5]
  }

  /** The lowest set bit of `value` alone, or 0 when `value` is 0. */
  function Isolate64(value: bv64): bv64
  {
    value & (!value + 1)
  }

  /** The table index: the top 6 bits of the wrapping product. */
  function Window64(isolated: bv64): bv64
  {
    DEBRUIJIN_NUMBER_64 * isolated >> DEBRUIJIN_SHIFT_64
  }

  /**
   * The table step: the window of the product selects the position. The
   * window has 6 bits, so the lookup is always within the table.
   */
  function Lookup64(isolated: bv64): bv64
  {
    DEBRUIJIN_INDICES_64[Window64(isolated) as bv6]
  }

  lemma LookupOfBits8()
    ensures Lookup8(1 << 0) == 0 && Lookup8(1 << 1) == 1 && Lookup8(1 << 2) == 2 && Lookup8(1 << 3) == 3 &&
      Lookup8(1 << 4) == 4 && Lookup8(1 << 5) == 5 && Lookup8(1 << 6) == 6 && Lookup8(1 << 7) == 7
  {
  }

  /** The table maps the window of every single-bit word back to the bit's position. */
  lemma LookupInverse8(b: bv8)
    requires b != 0 && b & (b - 1) == 0
    ensures Lookup8(b) < 8 && 1 << Lookup8(b) == b
  {
    LookupOfBits8();
    SingleBitInverse8(Lookup8, b);
  }

  lemma IsolateSingleBit8(v: bv8)
    requires v != 0
    ensures Isolate8(v) != 0 && Isolate8(v) & (Isolate8(v) - 1) == 0
  {
  }

  lemma LookupOfBits16()
    ensures Lookup16(1 << 0) == 0 && Lookup16(1 << 1) == 1 && Lookup16(1 << 2) == 2 && Lookup16(1 << 3) == 3 &&
      Lookup16(1 << 4) == 4 && Lookup16(1 << 5) == 5 && Lookup16(1 << 6) == 6 && Lookup16(1 << 7) == 7 &&
      Lookup16(1 << 8) == 8 && Lookup16(1 << 9) == 9 && Lookup16(1 << 10) == 10 && Lookup16(1 << 11) == 11 &&
      Lookup16(1 << 12) == 12 && Lookup16(1 << 13) == 13 && Lookup16(1 << 14) == 14 && Lookup16(1 << 15) == 15
  {
  }

  /** The table maps the window of every single-bit word back to the bit's position. */
  lemma LookupInverse16(b: bv16)
    requires b != 0 && b & (b - 1) == 0
    ensures Lookup16(b) < 16 && 1 << Lookup16(b) == b
  {
    LookupOfBits16();
    SingleBitInverse16(Lookup16, b);
  }

  lemma IsolateSingleBit16(v: bv16)
    requires v != 0
    ensures Isolate16(v) != 0 && Isolate16(v) & (Isolate16(v) - 1) == 0
  {
  }

  lemma LookupOfBits32From0()
    ensures Lookup32(1 << 0) == 0 && Lookup32(1 << 1) == 1 && Lookup32(1 << 2) == 2 && Lookup32(1 << 3) == 3 &&
      Lookup32(1 << 4) == 4 && Lookup32(1 << 5) == 5 && Lookup32(1 << 6) == 6 && Lookup32(1 << 7) == 7
  {
  }

  lemma LookupOfBits32From8()
    ensures Lookup32(1 << 8) == 8 && Lookup32(1 << 9) == 9 && Lookup32(1 << 10) == 10 && Lookup32(1 << 11) == 11 &&
      Lookup32(1 << 12) == 12 && Lookup32(1 << 13) == 13 && Lookup32(1 << 14) == 14 && Lookup32(1 << 15) == 15
  {
  }

  lemma LookupOfBits32From16()
    ensures Lookup32(1 << 16) == 16 && Lookup32(1 << 17) == 17 && Lookup32(1 << 18) == 18 && Lookup32(1 << 19) == 19 &&
      Lookup32(1 << 20) == 20 && Lookup32(1 << 21) == 21 && Lookup32(1 << 22) == 22 && Lookup32(1 << 23) == 23
  {
  }

  lemma LookupOfBits32From24()
    ensures Lookup32(1 << 24) == 24 && Lookup32(1 << 25) == 25 && Lookup32(1 << 26) == 26 && Lookup32(1 << 27) == 27 &&
      Lookup32(1 << 28) == 28 && Lookup32(1 << 29) == 29 && Lookup32(1 << 30) == 30 && Lookup32(1 << 31) == 31
  {
  }

  /** The table maps the window of every single-bit word back to the bit's position. */
  lemma LookupInverse32(b: bv32)
    requires b != 0 && b & (b - 1) == 0
    ensures Lookup32(b) < 32 && 1 << Lookup32(b) == b
  {
    LookupOfBits32From0();
    LookupOfBits32From8();
    LookupOfBits32From16();
    LookupOfBits32From24();
    SingleBitInverse32(Lookup32, b);
  }

  lemma IsolateSingleBit32(v: bv32)
    requires v != 0
    ensures Isolate32(v) != 0 && Isolate32(v) & (Isolate32(v) - 1) == 0
  {
  }

  lemma LookupOfBits64From0()
    ensures Lookup64(1 << 0) == 0 && Lookup64(1 << 1) == 1 && Lookup64(1 << 2) == 2 && Lookup64(1 << 3) == 3 &&
      Lookup64(1 << 4) == 4 && Lookup64(1 << 5) == 5 && Lookup64(1 << 6) == 6 && Lookup64(1 << 7) == 7
  {
  }

  lemma LookupOfBits64From8()
    ensures Lookup64(1 << 8) == 8 && Lookup64(1 << 9) == 9 && Lookup64(1 << 10) == 10 && Lookup64(1 << 11) == 11 &&
      Lookup64(1 << 12) == 12 && Lookup64(1 << 13) == 13 && Lookup64(1 << 14) == 14 && Lookup64(1 << 15) == 15
  {
  }

  lemma LookupOfBits64From16()
    ensures Lookup64(1 << 16) == 16 && Lookup64(1 << 17) == 17 && Lookup64(1 << 18) == 18 && Lookup64(1 << 19) == 19 &&
      Lookup64(1 << 20) == 20 && Lookup64(1 << 21) == 21 && Lookup64(1 << 22) == 22 && Lookup64(1 << 23) == 23
  {
  }

  lemma LookupOfBits64From24()
    ensures Lookup64(1 << 24) == 24 && Lookup64(1 << 25) == 25 && Lookup64(1 << 26) == 26 && Lookup64(1 << 27) == 27 &&
      Lookup64(1 << 28) == 28 && Lookup64(1 << 29) == 29 && Lookup64(1 << 30) == 30 && Lookup64(1 << 31) == 31
  {
  }

  lemma LookupOfBits64From32()
    ensures Lookup64(1 << 32) == 32 && Lookup64(1 << 33) == 33 && Lookup64(1 << 34) == 34 && Lookup64(1 << 35) == 35 &&
      Lookup64(1 << 36) == 36 && Lookup64(1 << 37) == 37 && Lookup64(1 << 38) == 38 && Lookup64(1 << 39) == 39
  {
  }

  lemma LookupOfBits64From40()
    ensures Lookup64(1 << 40) == 40 && Lookup64(1 << 41) == 41 && Lookup64(1 << 42) == 42 && Lookup64(1 << 43) == 43 &&
      Lookup64(1 << 44) == 44 && Lookup64(1 << 45) == 45 && Lookup64(1 << 46) == 46 && Lookup64(1 << 47) == 47
  {
  }

  lemma LookupOfBits64From48()
    ensures Lookup64(1 << 48) == 48 && Lookup64(1 << 49) == 49 && Lookup64(1 << 50) == 50 && Lookup64(1 << 51) == 51 &&
      Lookup64(1 << 52) == 52 && Lookup64(1 << 53) == 53 && Lookup64(1 << 54) == 54 && Lookup64(1 << 55) == 55
  {
  }

  lemma LookupOfBits64From56()
    ensures Lookup64(1 << 56) == 56 && Lookup64(1 << 57) == 57 && Lookup64(1 << 58) == 58 && Lookup64(1 << 59) == 59 &&
      Lookup64(1 << 60) == 60 && Lookup64(1 << 61) == 61 && Lookup64(1 << 62) == 62 && Lookup64(1 << 63) == 63
  {
  }

  /** The table maps the window of every single-bit word back to the bit's position. */
  lemma LookupInverse64(b: bv64)
    requires b != 0 && b & (b - 1) == 0
    ensures Lookup64(b) < 64 && 1 << Lookup64(b) == b
  {
    LookupOfBits64From0();
    LookupOfBits64From8();
    LookupOfBits64From16();
    LookupOfBits64From24();
    LookupOfBits64From32();
    LookupOfBits64From40();
    LookupOfBits64From48();
    LookupOfBits64From56();
    SingleBitInverse64(Lookup64, b);
  }

  lemma IsolateSingleBit64(v: bv64)
    requires v != 0
    ensures Isolate64(v) != 0 && Isolate64(v) & (Isolate64(v) - 1) == 0
  {
  }

  /** If isolating the lowest set bit of `v` yields `1 << i`, then `i` is that bit's position. */
  lemma IsolateIsLowest(v: bv64, i: bv64)
    requires i < 64 && Isolate64(v) == 1 << i
    ensures IsLowestSetBit(v, i)
  {
  }
  /** Widening a word does not move its isolated lowest bit. */
  lemma IsolateWiden8(v: bv8)
    ensures Isolate8(v) as bv64 == Isolate64(v as bv64)
  {
  }

  lemma LowestSetBit8Correct(value: bv8)
    ensures LowestSetBitOrZero(value as bv64, Lookup8(Isolate8(value)) as bv64)
  {
    if value != 0 {
      IsolateSingleBit8(value);
      var k := Lookup8(Isolate8(value));
      LookupInverse8(Isolate8(value));
      IsolateWiden8(value);
      assert ((1 as bv8) << k) as bv64 == 1 << (k as bv64);
      IsolateIsLowest(value as bv64, k as bv64);
    }
  }

  /** Widening a word does not move its isolated lowest bit. */
  lemma IsolateWiden16(v: bv16)
    ensures Isolate16(v) as bv64 == Isolate64(v as bv64)
  {
  }

  lemma LowestSetBit16Correct(value: bv16)
    ensures LowestSetBitOrZero(value as bv64, Lookup16(Isolate16(value)) as bv64)
  {
    if value != 0 {
      IsolateSingleBit16(value);
      var k := Lookup16(Isolate16(value));
      LookupInverse16(Isolate16(value));
      IsolateWiden16(value);
      assert ((1 as bv16) << k) as bv64 == 1 << (k as bv64);
      IsolateIsLowest(value as bv64, k as bv64);
    }
  }

  /** Widening a word does not move its isolated lowest bit. */
  lemma IsolateWiden32(v: bv32)
    ensures Isolate32(v) as bv64 == Isolate64(v as bv64)
  {
  }

  lemma LowestSetBit32Correct(value: bv32)
    ensures LowestSetBitOrZero(value as bv64, Lookup32(Isolate32(value)) as bv64)
  {
    if value != 0 {
      IsolateSingleBit32(value);
      var k := Lookup32(Isolate32(value));
      LookupInverse32(Isolate32(value));
      IsolateWiden32(value);
      assert ((1 as bv32) << k) as bv64 == 1 << (k as bv64);
      IsolateIsLowest(value as bv64, k as bv64);
    }
  }

  lemma LowestSetBit64Isolated(value: bv64, isolated: bv64, index: bv64)
    requires value != 0 && isolated == Isolate64(value) && index == Lookup64(isolated)
    ensures IsLowestSetBit(value, index)
  {
    IsolateSingleBit64(value);
    LookupInverse64(isolated);
    IsolateIsLowest(value, index);
  }

  lemma LowestSetBit64Correct(value: bv64)
    ensures LowestSetBitOrZero(value, Lookup64(Isolate64(value)))
  {
    if value != 0 {
      LowestSetBit64Isolated(value, Isolate64(value), Lookup64(Isolate64(value)));
    }
  }

  /*
   * The four word widths and the native-width entry points.
   */

  /** `get_lowest_set_bit_8`: the position of the lowest set bit, or 0 for 0. */
  function GetLowestSetBit8(value: bv8): (index: bv8)
    ensures LowestSetBitOrZero(value as bv64, index as bv64)
  {
    LowestSetBit8Correct(value);
    Lookup8(Isolate8(value))
  }

  /** `get_lowest_set_bit_16`: the position of the lowest set bit, or 0 for 0. */
  function GetLowestSetBit16(value: bv16): (index: bv16)
    ensures LowestSetBitOrZero(value as bv64, index as bv64)
  {
    LowestSetBit16Correct(value);
    Lookup16(Isolate16(value))
  }

  /** `get_lowest_set_bit_32`: the position of the lowest set bit, or 0 for 0. */
  function GetLowestSetBit32(value: bv32): (index: bv32)
    ensures LowestSetBitOrZero(value as bv64, index as bv64)
  {
    LowestSetBit32Correct(value);
    Lookup32(Isolate32(value))
  }

  /** `get_lowest_set_bit_64`: the position of the lowest set bit, or 0 for 0. */
  function GetLowestSetBit64(value: bv64): (index: bv64)
    ensures LowestSetBitOrZero(value, index)
  {
    LowestSetBit64Correct(value);
    Lookup64(Isolate64(value))
  }

  /** `get_lowest_set_bit` on the 64-bit target. */
  function GetLowestSetBit(value: bv64): (index: bv64)
    ensures LowestSetBitOrZero(value, index)
  {
    GetLowestSetBit64(value)
  }

  /**
   * `get_highest_set_bit`: the lowest set bit of the reversed word, counted from
   * the top. For 0 this is 64 - 0 - 1 == 63.
   */
  function GetHighestSetBit(value: bv64): (index: bv64)
    ensures value != 0 ==> IsHighestSetBit(value, index)
    ensures value == 0 ==> index == 63
  {
    HighestSetBitCorrect(value);
    64 - GetLowestSetBit(ReverseBits(value)) - 1
  }

  lemma HighestSetBitCorrect(value: bv64)
    ensures value != 0 ==> IsHighestSetBit(value, 64 - GetLowestSetBit(ReverseBits(value)) - 1)
    ensures value == 0 ==> 64 - GetLowestSetBit(ReverseBits(value)) - 1 == 63
  {
    var reversed := ReverseBits(value);
    ReversedBitsMatch(value, reversed);
    HighestFromReversed(value, reversed, GetLowestSetBit(reversed));
  }

  lemma ReversedBitsMatch(value: bv64, reversed: bv64)
    requires reversed == ReverseBits(value)
    ensures forall i: bv64 :: i < 64 ==> (BitSet(reversed, i) <==> BitSet(value, 63 - i))
  {
    forall i: bv64 | i < 64
      ensures BitSet(reversed, i) <==> BitSet(value, 63 - i)
    {
      ReverseBitsSpec(value, i);
    }
  }

  /**
   * Counting the lowest set bit of a bit-reversed copy of `value` from the top
   * gives the highest set bit of `value`.
   */
  lemma HighestFromReversed(value: bv64, reversed: bv64, low: bv64)
    requires forall i: bv64 :: i < 64 ==> (BitSet(reversed, i) <==> BitSet(value, 63 - i))
    requires LowestSetBitOrZero(reversed, low)
    ensures value != 0 ==> IsHighestSetBit(value, 64 - low - 1)
    ensures value == 0 ==> 64 - low - 1 == 63
  {
    if reversed == 0 {
      forall j: bv64 | j < 64
        ensures !BitSet(value, j)
      {
        assert !BitSet(reversed, 63 - j);
      }
      ZeroIfNoBitSet(value);
    } else {
      assert BitSet(value, 63 - low);
      forall j: bv64 | 63 - low < j
        ensures !BitSet(value, j)
      {
        if j < 64 {
          assert !BitSet(reversed, 63 - j);
        }
      }
    }
  }

  /**
   * The naive scan the tests compare against: the first position whose bit is
   * set, or 0 when there is none.
   */
  method SimpleLowestSetBit(value: bv64) returns (index: bv64)
    ensures LowestSetBitOrZero(value, index)
  {
    index := 0;
    while index < 64
      invariant index <= 64
      invariant forall j: bv64 :: j < index ==> !BitSet(value, j)
    {
      BitSetMask(value, index);
      if value & (1 << index) != 0 {
        return;
      }
      index := index + 1;
    }
    index := 0;
    ZeroIfNoBitSet(value);
  }

  /** A word none of whose 64 bits is set is zero. */
  lemma ZeroIfNoBitSet(value: bv64)
    requires forall j: bv64 :: j < 64 ==> !BitSet(value, j)
    ensures value == 0
  {
    var p := GetLowestSetBit64(value);
  }

  /** Two words with the same set positions are equal. */
  lemma SameBitsSameWord(a: bv64, b: bv64)
    requires forall i: bv64 :: i < 64 ==> (BitSet(a, i) <==> BitSet(b, i))
    ensures a == b
  {
    var difference := a ^ b;
    forall i: bv64 | i < 64
      ensures !BitSet(difference, i)
    {
      XorBit(a, b, i);
    }
    ZeroIfNoBitSet(difference);
    XorZero(a, b);
  }

  lemma XorBit(a: bv64, b: bv64, i: bv64)
    ensures BitSet(a ^ b, i) <==> BitSet(a, i) != BitSet(b, i)
  {
  }

  lemma XorZero(a: bv64, b: bv64)
    requires a ^ b == 0
    ensures a == b
  {
  }

  /*
   * Each table is a permutation of the bit positions 0..W-1. Slot `s` holds
   * the position `p` whose isolated bit `1 << p` has window `s`: looking a
   * slot up and turning the position back into its window returns the slot,
   * which makes the table one-to-one, and every position is reached from the
   * window of its own isolated bit.
   */

  /** Slot `slot` of the 8-bit table, looked up and turned back into a window; 8 off the table. */
  function RoundTrip8(slot: bv8): bv8
  {
    if slot < 8 && DEBRUIJIN_INDICES_8[slot] < 8 then Window8(1 << DEBRUIJIN_INDICES_8[slot]) else 8
  }

  lemma RoundTrip8From0()
    ensures RoundTrip8(0) == 0 && RoundTrip8(1) == 1 && RoundTrip8(2) == 2 && RoundTrip8(3) == 3
  {
  }

  lemma RoundTrip8From4()
    ensures RoundTrip8(4) == 4 && RoundTrip8(5) == 5 && RoundTrip8(6) == 6 && RoundTrip8(7) == 7
  {
  }

  /** A map on slots that fixes each of the 8 slots, listed one by one, fixes every slot. */
  lemma SlotIdentity8(f: bv8 -> bv8, i: bv8)
    requires f(0) == 0 && f(1) == 1 && f(2) == 2 && f(3) == 3 &&
      f(4) == 4 && f(5) == 5 && f(6) == 6 && f(7) == 7
    requires i < 8
    ensures f(i) == i
  {
  }

  /** Every slot of the 8-bit table survives the round trip. */
  lemma RoundTripIdentity8(i: bv8)
    requires i < 8
    ensures RoundTrip8(i) == i
  {
    RoundTrip8From0();
    RoundTrip8From4();
    SlotIdentity8(RoundTrip8, i);
  }

  /**
   * `DEBRUIJIN_INDICES_8` is a permutation of 0..7: the table and the
   * window of an isolated bit are inverse to each other. Every entry is a
   * position whose isolated bit has the entry's slot as its window, and every
   * position is the entry at the window of its isolated bit.
   */
  lemma Indices8Permutation(i: bv8, p: bv8)
    requires i < 8 && p < 8
    ensures DEBRUIJIN_INDICES_8[i] < 8 && Window8(1 << DEBRUIJIN_INDICES_8[i]) == i
    ensures Lookup8(1 << p) == p
  {
    RoundTripIdentity8(i);
    LookupInverse8(1 << p);
  }

  /** Slot `slot` of the 16-bit table, looked up and turned back into a window; 16 off the table. */
  function RoundTrip16(slot: bv16): bv16
  {
    if slot < 16 && DEBRUIJIN_INDICES_16[slot] < 16 then Window16(1 << DEBRUIJIN_INDICES_16[slot]) else 16
  }

  lemma RoundTrip16From0()
    ensures RoundTrip16(0) == 0 && RoundTrip16(1) == 1 && RoundTrip16(2) == 2 && RoundTrip16(3) == 3
  {
  }

  lemma RoundTrip16From4()
    ensures RoundTrip16(4) == 4 && RoundTrip16(5) == 5 && RoundTrip16(6) == 6 && RoundTrip16(7) == 7
  {
  }

  lemma RoundTrip16From8()
    ensures RoundTrip16(8) == 8 && RoundTrip16(9) == 9 && RoundTrip16(10) == 10 && RoundTrip16(11) == 11
  {
  }

  lemma RoundTrip16From12()
    ensures RoundTrip16(12) == 12 && RoundTrip16(13) == 13 && RoundTrip16(14) == 14 && RoundTrip16(15) == 15
  {
  }

  /** A map on slots that fixes each of the 16 slots, listed one by one, fixes every slot. */
  lemma SlotIdentity16(f: bv16 -> bv16, i: bv16)
    requires f(0) == 0 && f(1) == 1 && f(2) == 2 && f(3) == 3 &&
      f(4) == 4 && f(5) == 5 && f(6) == 6 && f(7) == 7 &&
      f(8) == 8 && f(9) == 9 && f(10) == 10 && f(11) == 11 &&
      f(12) == 12 && f(13) == 13 && f(14) == 14 && f(15) == 15
    requires i < 16
    ensures f(i) == i
  {
  }

  /** Every slot of the 16-bit table survives the round trip. */
  lemma RoundTripIdentity16(i: bv16)
    requires i < 16
    ensures RoundTrip16(i) == i
  {
    RoundTrip16From0();
    RoundTrip16From4();
    RoundTrip16From8();
    RoundTrip16From12();
    SlotIdentity16(RoundTrip16, i);
  }

  /**
   * `DEBRUIJIN_INDICES_16` is a permutation of 0..15: the table and the
   * window of an isolated bit are inverse to each other. Every entry is a
   * position whose isolated bit has the entry's slot as its window, and every
   * position is the entry at the window of its isolated bit.
   */
  lemma Indices16Permutation(i: bv16, p: bv16)
    requires i < 16 && p < 16
    ensures DEBRUIJIN_INDICES_16[i] < 16 && Window16(1 << DEBRUIJIN_INDICES_16[i]) == i
    ensures Lookup16(1 << p) == p
  {
    RoundTripIdentity16(i);
    LookupInverse16(1 << p);
  }

  /** Slot `slot` of the 32-bit table, looked up and turned back into a window; 32 off the table. */
  function RoundTrip32(slot: bv32): bv32
  {
    if slot < 32 && DEBRUIJIN_INDICES_32[slot] < 32 then Window32(1 << DEBRUIJIN_INDICES_32[slot]) else 32
  }

  lemma RoundTrip32From0()
    ensures RoundTrip32(0) == 0 && RoundTrip32(1) == 1 && RoundTrip32(2) == 2 && RoundTrip32(3) == 3
  {
  }

  lemma RoundTrip32From4()
    ensures RoundTrip32(4) == 4 && RoundTrip32(5) == 5 && RoundTrip32(6) == 6 && RoundTrip32(7) == 7
  {
  }

  lemma RoundTrip32From8()
    ensures RoundTrip32(8) == 8 && RoundTrip32(9) == 9 && RoundTrip32(10) == 10 && RoundTrip32(11) == 11
  {
  }

  lemma RoundTrip32From12()
    ensures RoundTrip32(12) == 12 && RoundTrip32(13) == 13 && RoundTrip32(14) == 14 && RoundTrip32(15) == 15
  {
  }

  lemma RoundTrip32From16()
    ensures RoundTrip32(16) == 16 && RoundTrip32(17) == 17 && RoundTrip32(18) == 18 && RoundTrip32(19) == 19
  {
  }

  lemma RoundTrip32From20()
    ensures RoundTrip32(20) == 20 && RoundTrip32(21) == 21 && RoundTrip32(22) == 22 && RoundTrip32(23) == 23
  {
  }

  lemma RoundTrip32From24()
    ensures RoundTrip32(24) == 24 && RoundTrip32(25) == 25 && RoundTrip32(26) == 26 && RoundTrip32(27) == 27
  {
  }

  lemma RoundTrip32From28()
    ensures RoundTrip32(28) == 28 && RoundTrip32(29) == 29 && RoundTrip32(30) == 30 && RoundTrip32(31) == 31
  {
  }

  /** A map on slots that fixes each of the 32 slots, listed one by one, fixes every slot. */
  lemma SlotIdentity32(f: bv32 -> bv32, i: bv32)
    requires f(0) == 0 && f(1) == 1 && f(2) == 2 && f(3) == 3 &&
      f(4) == 4 && f(5) == 5 && f(6) == 6 && f(7) == 7 &&
      f(8) == 8 && f(9) == 9 && f(10) == 10 && f(11) == 11 &&
      f(12) == 12 && f(13) == 13 && f(14) == 14 && f(15) == 15 &&
      f(16) == 16 && f(17) == 17 && f(18) == 18 && f(19) == 19 &&
      f(20) == 20 && f(21) == 21 && f(22) == 22 && f(23) == 23 &&
      f(24) == 24 && f(25) == 25 && f(26) == 26 && f(27) == 27 &&
      f(28) == 28 && f(29) == 29 && f(30) == 30 && f(31) == 31
    requires i < 32
    ensures f(i) == i
  {
  }

  /** Every slot of the 32-bit table survives the round trip. */
  lemma RoundTripIdentity32(i: bv32)
    requires i < 32
    ensures RoundTrip32(i) == i
  {
    RoundTrip32From0();
    RoundTrip32From4();
    RoundTrip32From8();
    RoundTrip32From12();
    RoundTrip32From16();
    RoundTrip32From20();
    RoundTrip32From24();
    RoundTrip32From28();
    SlotIdentity32(RoundTrip32, i);
  }

  /**
   * `DEBRUIJIN_INDICES_32` is a permutation of 0..31: the table and the
   * window of an isolated bit are inverse to each other. Every entry is a
   * position whose isolated bit has the entry's slot as its window, and every
   * position is the entry at the window of its isolated bit.
   */
  lemma Indices32Permutation(i: bv32, p: bv32)
    requires i < 32 && p < 32
    ensures DEBRUIJIN_INDICES_32[i] < 32 && Window32(1 << DEBRUIJIN_INDICES_32[i]) == i
    ensures Lookup32(1 << p) == p
  {
    RoundTripIdentity32(i);
    LookupInverse32(1 << p);
  }

  /** Slot `slot` of the 64-bit table, looked up and turned back into a window; 64 off the table. */
  function RoundTrip64(slot: bv64): bv64
  {
    if slot < 64 && DEBRUIJIN_INDICES_64[slot] < 64 then Window64(1 << DEBRUIJIN_INDICES_64[slot]) else 64
  }

  lemma RoundTrip64From0()
    ensures RoundTrip64(0) == 0 && RoundTrip64(1) == 1 && RoundTrip64(2) == 2 && RoundTrip64(3) == 3
  {
  }

  lemma RoundTrip64From4()
    ensures RoundTrip64(4) == 4 && RoundTrip64(5) == 5 && RoundTrip64(6) == 6 && RoundTrip64(7) == 7
  {
  }

  lemma RoundTrip64From8()
    ensures RoundTrip64(8) == 8 && RoundTrip64(9) == 9 && RoundTrip64(10) == 10 && RoundTrip64(11) == 11
  {
  }

  lemma RoundTrip64From12()
    ensures RoundTrip64(12) == 12 && RoundTrip64(13) == 13 && RoundTrip64(14) == 14 && RoundTrip64(15) == 15
  {
  }

  lemma RoundTrip64From16()
    ensures RoundTrip64(16) == 16 && RoundTrip64(17) == 17 && RoundTrip64(18) == 18 && RoundTrip64(19) == 19
  {
  }

  lemma RoundTrip64From20()
    ensures RoundTrip64(20) == 20 && RoundTrip64(21) == 21 && RoundTrip64(22) == 22 && RoundTrip64(23) == 23
  {
  }

  lemma RoundTrip64From24()
    ensures RoundTrip64(24) == 24 && RoundTrip64(25) == 25 && RoundTrip64(26) == 26 && RoundTrip64(27) == 27
  {
  }

  lemma RoundTrip64From28()
    ensures RoundTrip64(28) == 28 && RoundTrip64(29) == 29 && RoundTrip64(30) == 30 && RoundTrip64(31) == 31
  {
  }

  lemma RoundTrip64From32()
    ensures RoundTrip64(32) == 32 && RoundTrip64(33) == 33 && RoundTrip64(34) == 34 && RoundTrip64(35) == 35
  {
  }

  lemma RoundTrip64From36()
    ensures RoundTrip64(36) == 36 && RoundTrip64(37) == 37 && RoundTrip64(38) == 38 && RoundTrip64(39) == 39
  {
  }

  lemma RoundTrip64From40()
    ensures RoundTrip64(40) == 40 && RoundTrip64(41) == 41 && RoundTrip64(42) == 42 && RoundTrip64(43) == 43
  {
  }

  lemma RoundTrip64From44()
    ensures RoundTrip64(44) == 44 && RoundTrip64(45) == 45 && RoundTrip64(46) == 46 && RoundTrip64(47) == 47
  {
  }

  lemma RoundTrip64From48()
    ensures RoundTrip64(48) == 48 && RoundTrip64(49) == 49 && RoundTrip64(50) == 50 && RoundTrip64(51) == 51
  {
  }

  lemma RoundTrip64From52()
    ensures RoundTrip64(52) == 52 && RoundTrip64(53) == 53 && RoundTrip64(54) == 54 && RoundTrip64(55) == 55
  {
  }

  lemma RoundTrip64From56()
    ensures RoundTrip64(56) == 56 && RoundTrip64(57) == 57 && RoundTrip64(58) == 58 && RoundTrip64(59) == 59
  {
  }

  lemma RoundTrip64From60()
    ensures RoundTrip64(60) == 60 && RoundTrip64(61) == 61 && RoundTrip64(62) == 62 && RoundTrip64(63) == 63
  {
  }

  /** A map on slots that fixes each of the 64 slots, listed one by one, fixes every slot. */
  lemma SlotIdentity64(f: bv64 -> bv64, i: bv64)
    requires f(0) == 0 && f(1) == 1 && f(2) == 2 && f(3) == 3 &&
      f(4) == 4 && f(5) == 5 && f(6) == 6 && f(7) == 7 &&
      f(8) == 8 && f(9) == 9 && f(10) == 10 && f(11) == 11 &&
      f(12) == 12 && f(13) == 13 && f(14) == 14 && f(15) == 15 &&
      f(16) == 16 && f(17) == 17 && f(18) == 18 && f(19) == 19 &&
      f(20) == 20 && f(21) == 21 && f(22) == 22 && f(23) == 23 &&
      f(24) == 24 && f(25) == 25 && f(26) == 26 && f(27) == 27 &&
      f(28) == 28 && f(29) == 29 && f(30) == 30 && f(31) == 31 &&
      f(32) == 32 && f(33) == 33 && f(34) == 34 && f(35) == 35 &&
      f(36) == 36 && f(37) == 37 && f(38) == 38 && f(39) == 39 &&
      f(40) == 40 && f(41) == 41 && f(42) == 42 && f(43) == 43 &&
      f(44) == 44 && f(45) == 45 && f(46) == 46 && f(47) == 47 &&
      f(48) == 48 && f(49) == 49 && f(50) == 50 && f(51) == 51 &&
      f(52) == 52 && f(53) == 53 && f(54) == 54 && f(55) == 55 &&
      f(56) == 56 && f(57) == 57 && f(58) == 58 && f(59) == 59 &&
      f(60) == 60 && f(61) == 61 && f(62) == 62 && f(63) == 63
    requires i < 64
    ensures f(i) == i
  {
  }

  /** Every slot of the 64-bit table survives the round trip. */
  lemma RoundTripIdentity64(i: bv64)
    requires i < 64
    ensures RoundTrip64(i) == i
  {
    RoundTrip64From0();
    RoundTrip64From4();
    RoundTrip64From8();
    RoundTrip64From12();
    RoundTrip64From16();
    RoundTrip64From20();
    RoundTrip64From24();
    RoundTrip64From28();
    RoundTrip64From32();
    RoundTrip64From36();
    RoundTrip64From40();
    RoundTrip64From44();
    RoundTrip64From48();
    RoundTrip64From52();
    RoundTrip64From56();
    RoundTrip64From60();
    SlotIdentity64(RoundTrip64, i);
  }

  /**
   * `DEBRUIJIN_INDICES_64` is a permutation of 0..63: the table and the
   * window of an isolated bit are inverse to each other. Every entry is a
   * position whose isolated bit has the entry's slot as its window, and every
   * position is the entry at the window of its isolated bit.
   */
  lemma Indices64Permutation(i: bv64, p: bv64)
    requires i < 64 && p < 64
    ensures DEBRUIJIN_INDICES_64[i] < 64 && Window64(1 << DEBRUIJIN_INDICES_64[i]) == i
    ensures Lookup64(1 << p) == p
  {
    RoundTripIdentity64(i);
    LookupInverse64(1 << p);
  }

  /*
   * The properties the unit tests check.
   */

  /** Isolating keeps exactly the lowest set bit: `1 << i` for the lowest set position `i`. */
  lemma IsolateIsLowestBit(value: bv64, i: bv64)
    requires IsLowestSetBit(value, i)
    ensures Isolate64(value) == 1 << i
  {
    LowestSetBit64Isolated(value, Isolate64(value), Lookup64(Isolate64(value)));
    LowestSetBitUnique(value, i, Lookup64(Isolate64(value)));
    IsolateSingleBit64(value);
    LookupInverse64(Isolate64(value));
  }

  /** Isolating the lowest set bit of 0 gives 0. */
  lemma IsolateZero()
    ensures Isolate8(0) == 0 && Isolate16(0) == 0 && Isolate32(0) == 0 && Isolate64(0) == 0
  {
  }

  /** Every isolated bit maps back to its position. */
  lemma IsolatedBit8(p: bv8)
    requires p < 8
    ensures GetLowestSetBit8(1 << p) == p
  {
    var bit: bv8 := 1 << p;
    var wide: bv64 := bit as bv64;
    assert wide == 1 << (p as bv64);
    assert IsLowestSetBit(wide, p as bv64);
    LowestSetBitUnique(wide, p as bv64, GetLowestSetBit8(1 << p) as bv64);
  }

  /** Every isolated bit maps back to its position. */
  lemma IsolatedBit16(p: bv16)
    requires p < 16
    ensures GetLowestSetBit16(1 << p) == p
  {
    var bit: bv16 := 1 << p;
    var wide: bv64 := bit as bv64;
    assert wide == 1 << (p as bv64);
    assert IsLowestSetBit(wide, p as bv64);
    LowestSetBitUnique(wide, p as bv64, GetLowestSetBit16(1 << p) as bv64);
  }

  /** Every isolated bit maps back to its position. */
  lemma IsolatedBit32(p: bv32)
    requires p < 32
    ensures GetLowestSetBit32(1 << p) == p
  {
    var bit: bv32 := 1 << p;
    var wide: bv64 := bit as bv64;
    assert wide == 1 << (p as bv64);
    assert IsLowestSetBit(wide, p as bv64);
    LowestSetBitUnique(wide, p as bv64, GetLowestSetBit32(1 << p) as bv64);
  }

  /** Every isolated bit maps back to its position. */
  lemma IsolatedBit64(p: bv64)
    requires p < 64
    ensures GetLowestSetBit64(1 << p) == p
  {
    assert IsLowestSetBit(1 << p, p);
    LowestSetBitUnique(1 << p, p, GetLowestSetBit64(1 << p));
  }

  /** On every 8-bit value the De Bruijn search gives what the naive scan gives. */
  lemma LowestSetBit8MatchesScan(value: bv8, scan: bv64)
    requires LowestSetBitOrZero(value as bv64, scan)
    ensures GetLowestSetBit8(value) as bv64 == scan
  {
    LowestSetBitOrZeroUnique(value as bv64, GetLowestSetBit8(value) as bv64, scan);
  }

  /** On every 16-bit value the De Bruijn search gives what the naive scan gives. */
  lemma LowestSetBit16MatchesScan(value: bv16, scan: bv64)
    requires LowestSetBitOrZero(value as bv64, scan)
    ensures GetLowestSetBit16(value) as bv64 == scan
  {
    LowestSetBitOrZeroUnique(value as bv64, GetLowestSetBit16(value) as bv64, scan);
  }

  /** The documented examples: bit 0 is the lowest and bit 2 the highest set bit of 5. */
  lemma DocumentedExamples()
    ensures GetLowestSetBit(5) == 0 && GetHighestSetBit(5) == 2
  {
    assert LowestSetBitOrZero(5, 0);
    LowestSetBitOrZeroUnique(5, GetLowestSetBit(5), 0);
    assert IsHighestSetBit(5, 2);
    HighestSetBitUnique(5, GetHighestSetBit(5), 2);
  }

  /** The boundary cases of the 32-bit test: 0, all ones and alternating bits. */
  lemma BoundaryCases32()
    ensures GetLowestSetBit32(0) == 0
    ensures GetLowestSetBit32(0xFFFF_FFFF) == 0
    ensures GetLowestSetBit32(0xAAAA_AAAA) == 1
  {
    assert LowestSetBitOrZero(0xFFFF_FFFF, 0);
    LowestSetBitOrZeroUnique(0xFFFF_FFFF, GetLowestSetBit32(0xFFFF_FFFF) as bv64, 0);
    assert LowestSetBitOrZero(0xAAAA_AAAA, 1);
    LowestSetBitOrZeroUnique(0xAAAA_AAAA, GetLowestSetBit32(0xAAAA_AAAA) as bv64, 1);
  }

  /** The boundary cases of the 64-bit test: 0, all ones and alternating bits. */
  lemma BoundaryCases64()
    ensures GetLowestSetBit64(0) == 0
    ensures GetLowestSetBit64(0xFFFF_FFFF_FFFF_FFFF) == 0
    ensures GetLowestSetBit64(0xAAAA_AAAA_AAAA_AAAA) == 1
  {
    assert LowestSetBitOrZero(0xFFFF_FFFF_FFFF_FFFF, 0);
    LowestSetBitOrZeroUnique(0xFFFF_FFFF_FFFF_FFFF, GetLowestSetBit64(0xFFFF_FFFF_FFFF_FFFF), 0);
    assert LowestSetBitOrZero(0xAAAA_AAAA_AAAA_AAAA, 1);
    LowestSetBitOrZeroUnique(0xAAAA_AAAA_AAAA_AAAA, GetLowestSetBit64(0xAAAA_AAAA_AAAA_AAAA), 1);
  }
}

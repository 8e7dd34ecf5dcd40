/**
 * Machine-word vocabulary shared by the whole model: which bit positions of a
 * 64-bit word (`usize` on the 64-bit target) are set, which of them is the
 * lowest or the highest, and the bit reversal that `usize::reverse_bits`
 * performs.
 */
module Bits {

  /** The word with every bit set, `usize::MAX`. */
  const ALL_ONES: bv64 := 0xFFFF_FFFF_FFFF_FFFF

  /** The alternating patterns of the field tests. */
  const FIVES: bv64 := 0x5555_5555_5555_5555
  const A_S: bv64 := 0xAAAA_AAAA_AAAA_AAAA

  /** Bit `i` of `v` is set; positions range over 0..63. */
  predicate BitSet(v: bv64, i: bv64)
  {
    i < 64 && (v >> i) & 1 == 1
  }

  /** Bit `b` is set exactly when the word masked by `1 << b` is nonzero. */
  lemma BitSetMask(v: bv64, b: bv64)
    requires b < 64
    ensures BitSet(v, b) <==> v & (1 << b) != 0
  {
  }

  /** The masked test of bit `b`, as the source writes it: `v & (1 << b) != 0`. */
  function TestMask(v: bv64, b: bv64): (isSet: bool)
    requires b < 64
    ensures isSet <==> BitSet(v, b)
  {
    BitSetMask(v, b);
    v & (1 << b) != 0
  }

  /** `i` is the position of the least significant set bit of `v`. */
  ghost predicate IsLowestSetBit(v: bv64, i: bv64)
  {
    BitSet(v, i) && forall j: bv64 :: j < i ==> !BitSet(v, j)
  }

  /** `i` is the position of the most significant set bit of `v`. */
  ghost predicate IsHighestSetBit(v: bv64, i: bv64)
  {
    BitSet(v, i) && forall j: bv64 :: i < j ==> !BitSet(v, j)
  }

  /**
   * What a lowest-set-bit search returns: the position of the lowest set bit,
   * or 0 when no bit is set.
   */
  ghost predicate LowestSetBitOrZero(v: bv64, i: bv64)
  {
    if v == 0 then i == 0 else IsLowestSetBit(v, i)
  }

  lemma LowestSetBitUnique(v: bv64, i: bv64, j: bv64)
    requires IsLowestSetBit(v, i) && IsLowestSetBit(v, j)
    ensures i == j
  {
  }

  lemma HighestSetBitUnique(v: bv64, i: bv64, j: bv64)
    requires IsHighestSetBit(v, i) && IsHighestSetBit(v, j)
    ensures i == j
  {
  }

  lemma LowestNotAboveHighestBit(v: bv64, low: bv64, high: bv64)
    requires IsLowestSetBit(v, low) && IsHighestSetBit(v, high)
    ensures low <= high < 64
  {
  }

  lemma LowestSetBitOrZeroUnique(v: bv64, i: bv64, j: bv64)
    requires LowestSetBitOrZero(v, i) && LowestSetBitOrZero(v, j)
    ensures i == j
  {
    if v != 0 {
      LowestSetBitUnique(v, i, j);
    }
  }

  /*
   * What the word updates of the bitfields mean for the set of positions.
   */

  /** ORing in `field` adds exactly the indices of `field`. */
  lemma AddBits(word: bv64, field: bv64, i: bv64)
    ensures BitSet(word | field, i) <==> BitSet(word, i) || BitSet(field, i)
  {
  }

  /** Masking out `field` removes exactly the indices of `field`. */
  lemma RemoveBits(word: bv64, field: bv64, i: bv64)
    ensures BitSet(word & !field, i) <==> BitSet(word, i) && !BitSet(field, i)
  {
  }

  /** Setting one bit adds exactly that index. */
  lemma AddOneBit(word: bv64, index: bv64, i: bv64)
    requires index < 64
    ensures BitSet(word | (1 << index), i) <==> BitSet(word, i) || i == index
  {
  }

  /** The single-bit word `1 << b` has exactly position `b` set. */
  lemma OneBit(b: bv64, i: bv64)
    requires b < 64
    ensures BitSet(1 << b, i) <==> i == b
  {
  }

  /** Clearing one bit removes exactly that index. */
  lemma RemoveOneBit(word: bv64, index: bv64, i: bv64)
    requires index < 64
    ensures BitSet(word & !(1 << index), i) <==> BitSet(word, i) && i != index
  {
  }

  /*
   * A lookup that maps each single-bit word `1 << k` back to `k` inverts every
   * single-bit word. The requirement lists the W single-bit words one by one, so
   * a table is checked against it by evaluation; the conclusion then holds for a
   * symbolic word.
   */

  lemma SingleBitInverse8(f: bv8 -> bv8, b: bv8)
    requires f(1 << 0) == 0 && f(1 << 1) == 1 && f(1 << 2) == 2 && f(1 << 3) == 3 &&
      f(1 << 4) == 4 && f(1 << 5) == 5 && f(1 << 6) == 6 && f(1 << 7) == 7
    requires b != 0 && b & (b - 1) == 0
    ensures f(b) < 8 && 1 << f(b) == b
  {
  }

  lemma SingleBitInverse16(f: bv16 -> bv16, b: bv16)
    requires f(1 << 0) == 0 && f(1 << 1) == 1 && f(1 << 2) == 2 && f(1 << 3) == 3 &&
      f(1 << 4) == 4 && f(1 << 5) == 5 && f(1 << 6) == 6 && f(1 << 7) == 7 &&
      f(1 << 8) == 8 && f(1 << 9) == 9 && f(1 << 10) == 10 && f(1 << 11) == 11 &&
      f(1 << 12) == 12 && f(1 << 13) == 13 && f(1 << 14) == 14 && f(1 << 15) == 15
    requires b != 0 && b & (b - 1) == 0
    ensures f(b) < 16 && 1 << f(b) == b
  {
  }

  lemma SingleBitInverse32(f: bv32 -> bv32, b: bv32)
    requires f(1 << 0) == 0 && f(1 << 1) == 1 && f(1 << 2) == 2 && f(1 << 3) == 3 &&
      f(1 << 4) == 4 && f(1 << 5) == 5 && f(1 << 6) == 6 && f(1 << 7) == 7 &&
      f(1 << 8) == 8 && f(1 << 9) == 9 && f(1 << 10) == 10 && f(1 << 11) == 11 &&
      f(1 << 12) == 12 && f(1 << 13) == 13 && f(1 << 14) == 14 && f(1 << 15) == 15 &&
      f(1 << 16) == 16 && f(1 << 17) == 17 && f(1 << 18) == 18 && f(1 << 19) == 19 &&
      f(1 << 20) == 20 && f(1 << 21) == 21 && f(1 << 22) == 22 && f(1 << 23) == 23 &&
      f(1 << 24) == 24 && f(1 << 25) == 25 && f(1 << 26) == 26 && f(1 << 27) == 27 &&
      f(1 << 28) == 28 && f(1 << 29) == 29 && f(1 << 30) == 30 && f(1 << 31) == 31
    requires b != 0 && b & (b - 1) == 0
    ensures f(b) < 32 && 1 << f(b) == b
  {
  }

  lemma SingleBitInverse64(f: bv64 -> bv64, b: bv64)
    requires f(1 << 0) == 0 && f(1 << 1) == 1 && f(1 << 2) == 2 && f(1 << 3) == 3 &&
      f(1 << 4) == 4 && f(1 << 5) == 5 && f(1 << 6) == 6 && f(1 << 7) == 7 &&
      f(1 << 8) == 8 && f(1 << 9) == 9 && f(1 << 10) == 10 && f(1 << 11) == 11 &&
      f(1 << 12) == 12 && f(1 << 13) == 13 && f(1 << 14) == 14 && f(1 << 15) == 15 &&
      f(1 << 16) == 16 && f(1 << 17) == 17 && f(1 << 18) == 18 && f(1 << 19) == 19 &&
      f(1 << 20) == 20 && f(1 << 21) == 21 && f(1 << 22) == 22 && f(1 << 23) == 23 &&
      f(1 << 24) == 24 && f(1 << 25) == 25 && f(1 << 26) == 26 && f(1 << 27) == 27 &&
      f(1 << 28) == 28 && f(1 << 29) == 29 && f(1 << 30) == 30 && f(1 << 31) == 31 &&
      f(1 << 32) == 32 && f(1 << 33) == 33 && f(1 << 34) == 34 && f(1 << 35) == 35 &&
      f(1 << 36) == 36 && f(1 << 37) == 37 && f(1 << 38) == 38 && f(1 << 39) == 39 &&
      f(1 << 40) == 40 && f(1 << 41) == 41 && f(1 << 42) == 42 && f(1 << 43) == 43 &&
      f(1 << 44) == 44 && f(1 << 45) == 45 && f(1 << 46) == 46 && f(1 << 47) == 47 &&
      f(1 << 48) == 48 && f(1 << 49) == 49 && f(1 << 50) == 50 && f(1 << 51) == 51 &&
      f(1 << 52) == 52 && f(1 << 53) == 53 && f(1 << 54) == 54 && f(1 << 55) == 55 &&
      f(1 << 56) == 56 && f(1 << 57) == 57 && f(1 << 58) == 58 && f(1 << 59) == 59 &&
      f(1 << 60) == 60 && f(1 << 61) == 61 && f(1 << 62) == 62 && f(1 << 63) == 63
    requires b != 0 && b & (b - 1) == 0
    ensures f(b) < 64 && 1 << f(b) == b
  {
  }

}

/**
 * Bit reversal, as `usize::reverse_bits` does it on the 64-bit target. Each
 * stage exchanges neighbouring blocks of `s` bits, which maps bit `i` to bit
 * `i ^ s`; the six stages together map bit `i` to bit `i ^ 63 == 63 - i`.
 */
module BitReverse {
  import opened Bits

  /**
   * Each stage exchanges neighbouring blocks of `s` bits, which moves bit `i`
   * to bit `i ^ s`; the six stages together move bit `i` to `i ^ 63`, that is
   * to `63 - i`.
   */
  function ReverseBits(v: bv64): bv64
  {
    var v1 := ((v >> 1) & 0x5555_5555_5555_5555) | ((v & 0x5555_5555_5555_5555) << 1);
    var v2 := ((v1 >> 2) & 0x3333_3333_3333_3333) | ((v1 & 0x3333_3333_3333_3333) << 2);
    var v3 := ((v2 >> 4) & 0x0F0F_0F0F_0F0F_0F0F) | ((v2 & 0x0F0F_0F0F_0F0F_0F0F) << 4);
    var v4 := ((v3 >> 8) & 0x00FF_00FF_00FF_00FF) | ((v3 & 0x00FF_00FF_00FF_00FF) << 8);
    var v5 := ((v4 >> 16) & 0x0000_FFFF_0000_FFFF) | ((v4 & 0x0000_FFFF_0000_FFFF) << 16);
    (v5 >> 32) | (v5 << 32)
  }

  /** Bit `i` of the reversed word is bit `63 - i` of the original. */
  lemma ReverseBitsSpec(v: bv64, i: bv64)
    requires i < 64
    ensures BitSet(ReverseBits(v), i) <==> BitSet(v, 63 - i)
  {
  }

  /** Only the zero word reverses to zero. */
  lemma ReverseBitsZero(v: bv64)
    ensures ReverseBits(v) == 0 <==> v == 0
  {
  }

  /** Reversing twice gives the word back. */
  lemma ReverseBitsInvolution(v: bv64)
    ensures ReverseBits(ReverseBits(v)) == v
  {
  }
}

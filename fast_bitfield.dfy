/**
 * The fast-bitfield interface: the word-level search that both bitfields use,
 * which runs the processor's count-zeros instruction when the target has one
 * and the De Bruijn search otherwise, and the contract every fast bitfield
 * keeps.
 */
module FastBitField {
  import opened Bits
  import opened BitReverse
  import opened DeBruijn
  import opened Wrappers

  /**
   * Whether the target has a count-leading-zeros instruction. It is fixed by
   * the build target; the model leaves it unspecified, so every property below
   * holds for both values.
   */
  const COUNT_LEADING_ZEROS_EXISTS: bool

  /*
   * The native instructions, as `usize::trailing_zeros` and
   * `usize::leading_zeros` define them: the number of zero bits below the
   * lowest set bit, and the number of zero bits above the highest one. Both
   * give 64 for a zero word. The trailing count stops at the first set bit,
   * starting `n` positions in; the leading count of a word is the trailing
   * count of its bit reversal.
   */

  function TrailingZerosFrom(v: bv64, n: bv64): bv64
    requires n <= 64
    decreases 64 - n
  {
    if n == 64 then 64 else if BitSet(v, n) then n else TrailingZerosFrom(v, n + 1)
  }

  function TrailingZeros(v: bv64): bv64
  {
    TrailingZerosFrom(v, 0)
  }

  function LeadingZeros(v: bv64): bv64
  {
    TrailingZeros(ReverseBits(v))
  }

  lemma {:induction false} TrailingZerosFromSpec(v: bv64, n: bv64)
    requires n <= 64
    requires forall j: bv64 :: j < n ==> !BitSet(v, j)
    ensures TrailingZerosFrom(v, n) != 64 ==> IsLowestSetBit(v, TrailingZerosFrom(v, n))
    decreases 64 - n
  {
    if n < 64 && !BitSet(v, n) {
      TrailingZerosFromSpec(v, n + 1);
    }
  }

  lemma {:induction false} TrailingZerosFromZero(v: bv64, n: bv64)
    requires n <= 64
    requires forall j: bv64 :: j < n ==> !BitSet(v, j)
    ensures TrailingZerosFrom(v, n) == 64 ==> forall j: bv64 :: j < 64 ==> !BitSet(v, j)
    decreases 64 - n
  {
    if n < 64 && !BitSet(v, n) {
      TrailingZerosFromZero(v, n + 1);
    }
  }

  /** The trailing-zero count is the lowest set position, and 64 exactly for 0. */
  lemma TrailingZerosSpec(v: bv64)
    ensures v != 0 ==> IsLowestSetBit(v, TrailingZeros(v))
    ensures v == 0 <==> TrailingZeros(v) == 64
  {
    TrailingZerosFromSpec(v, 0);
    TrailingZerosFromZero(v, 0);
    if TrailingZeros(v) == 64 {
      ZeroIfNoBitSet(v);
    }
  }

  /** 63 minus the leading-zero count is the highest set position, and the count is 64 exactly for 0. */
  lemma LeadingZerosSpec(v: bv64)
    ensures v != 0 ==> IsHighestSetBit(v, 63 - LeadingZeros(v))
    ensures v == 0 <==> LeadingZeros(v) == 64
  {
    var reversed := ReverseBits(v);
    ReverseBitsZero(v);
    TrailingZerosSpec(reversed);
    if v != 0 {
      ReversedBitsMatch(v, reversed);
      HighestFromReversed(v, reversed, TrailingZeros(reversed));
    }
  }

  /**
   * `find_lowest_set_bit`: the lowest set position of a nonzero word. The
   * result for 0 is left undefined by its callers; it is what each path gives:
   * 64 from the instruction, 0 from the De Bruijn search.
   */
  function FindLowestSetBit(clzExists: bool, value: bv64): (index: bv64)
    ensures value != 0 ==> IsLowestSetBit(value, index)
    ensures value == 0 ==> index == if clzExists then 64 else 0
  {
    if clzExists then
      TrailingZerosSpec(value);
      TrailingZeros(value)
    else
      GetLowestSetBit(value)
  }

  /**
   * `find_highest_set_bit`: the highest set position of a nonzero word. For 0
   * the instruction path computes 64 - 1 - 64, which wraps to the all-ones
   * word, and the De Bruijn path gives 63.
   */
  function FindHighestSetBit(clzExists: bool, value: bv64): (index: bv64)
    ensures value != 0 ==> IsHighestSetBit(value, index)
    ensures value == 0 ==> index == if clzExists then 0xFFFF_FFFF_FFFF_FFFF else 63
  {
    if clzExists then
      LeadingZerosSpec(value);
      64 - 1 - LeadingZeros(value)
    else
      GetHighestSetBit(value)
  }

  /** A nonzero word has a set bit. */
  lemma NonzeroHasSetBit(v: bv64)
    requires v != 0
    ensures exists i: bv64 :: BitSet(v, i)
  {
    assert BitSet(v, GetLowestSetBit(v));
  }

  /** The instruction path and the De Bruijn path agree on every nonzero word. */
  lemma NativeMatchesDeBruijn(value: bv64)
    requires value != 0
    ensures FindLowestSetBit(true, value) == FindLowestSetBit(false, value)
    ensures FindHighestSetBit(true, value) == FindHighestSetBit(false, value)
  {
    LowestSetBitUnique(value, FindLowestSetBit(true, value), FindLowestSetBit(false, value));
    HighestSetBitUnique(value, FindHighestSetBit(true, value), FindHighestSetBit(false, value));
  }

  /** Both results index a set bit, and the lowest is not above the highest. */
  lemma LowestNotAboveHighest(clzExists: bool, value: bv64)
    requires value != 0
    ensures FindLowestSetBit(clzExists, value) <= FindHighestSetBit(clzExists, value) < 64
  {
    LowestNotAboveHighestBit(value, FindLowestSetBit(clzExists, value), FindHighestSetBit(clzExists, value));
  }
}

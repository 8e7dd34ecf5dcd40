/**
 * The small fast bitfield: one machine word whose bit `i` records whether
 * index `i` is in the set.
 */
module SmallBitFields {
  import opened Bits
  import opened FastBitField
  import opened Wrappers

  /** The number of bits of a small bitfield: the width of `usize`. */
  const SMALL_BIT_FIELD_BIT_SIZE: bv64 := 64

  class SmallBitField {
    var bitfield: bv64

    /** `new`: the empty bitfield. */
    constructor ()
      ensures bitfield == 0
    {
      bitfield := 0;
    }

    /** `get_number_of_bits`: every set bit lies below this count. */
    static function GetNumberOfBits(): (n: bv64)
      ensures forall v: bv64, i: bv64 :: BitSet(v, i) ==> i < n
      ensures forall i: bv64 :: i < n <==> BitSet(ALL_ONES, i)
    {
      SMALL_BIT_FIELD_BIT_SIZE
    }

    /** `set_field`: ORs `field` into the word; `AddBits` gives its meaning. */
    method SetField(field: bv64)
      modifies this
      ensures bitfield == old(bitfield) | field
    {
      bitfield := bitfield | field;
    }

    /** `clear_field`: masks `field` out of the word; `RemoveBits` gives its meaning. */
    method ClearField(field: bv64)
      modifies this
      ensures bitfield == old(bitfield) & !field
    {
      bitfield := bitfield & !field;
    }

    /** `set_bit`: adds `index`; an index past the end changes nothing. */
    method SetBit(index: bv64)
      modifies this
      ensures index < SMALL_BIT_FIELD_BIT_SIZE ==> bitfield == old(bitfield) | (1 << index)
      ensures index >= SMALL_BIT_FIELD_BIT_SIZE ==> bitfield == old(bitfield)
    {
      if index < SMALL_BIT_FIELD_BIT_SIZE {
        bitfield := bitfield | (1 << index);
      }
    }

    /** `clear_bit`: removes `index`; an index past the end changes nothing. */
    method ClearBit(index: bv64)
      modifies this
      ensures index < SMALL_BIT_FIELD_BIT_SIZE ==> bitfield == old(bitfield) & !(1 << index)
      ensures index >= SMALL_BIT_FIELD_BIT_SIZE ==> bitfield == old(bitfield)
    {
      if index < SMALL_BIT_FIELD_BIT_SIZE {
        bitfield := bitfield & !(1 << index);
      }
    }

    /** `set_bit_unchecked`: the caller guarantees the index is in range. */
    method SetBitUnchecked(index: bv64)
      requires index < SMALL_BIT_FIELD_BIT_SIZE
      modifies this
      ensures bitfield == old(bitfield) | (1 << index)
    {
      bitfield := bitfield | (1 << index);
    }

    /** `clear_bit_unchecked`: the caller guarantees the index is in range. */
    method ClearBitUnchecked(index: bv64)
      requires index < SMALL_BIT_FIELD_BIT_SIZE
      modifies this
      ensures bitfield == old(bitfield) & !(1 << index)
    {
      bitfield := bitfield & !(1 << index);
    }

    /** `is_empty`: no index is in the set. */
    function IsEmpty(): (empty: bool)
      reads this
      ensures empty <==> forall i: bv64 :: !BitSet(bitfield, i)
    {
      if bitfield != 0 then
        NonzeroHasSetBit(bitfield);
        false
      else
        true
    }

    /** `test_bit_unchecked`: whether `index` is in the set. */
    function TestBitUnchecked(index: bv64): (isSet: bool)
      requires index < SMALL_BIT_FIELD_BIT_SIZE
      reads this
      ensures isSet <==> BitSet(bitfield, index)
    {
      bitfield & (1 << index) != 0
    }

    /** `test_bit`: `None` for an index past the end, else whether it is set. */
    function TestBit(index: bv64): (result: Option<bool>)
      reads this
      ensures result.Some? <==> index < SMALL_BIT_FIELD_BIT_SIZE
      ensures result.Some? ==> (result.value <==> BitSet(bitfield, index))
    {
      if index < SMALL_BIT_FIELD_BIT_SIZE then Some(TestBitUnchecked(index)) else None
    }

    /** `get_lowest_set_bit_unchecked`: the lowest index; the caller guarantees the set is not empty. */
    function GetLowestSetBitUnchecked(): (index: bv64)
      requires bitfield != 0
      reads this
      ensures IsLowestSetBit(bitfield, index)
    {
      FindLowestSetBit(COUNT_LEADING_ZEROS_EXISTS, bitfield)
    }

    /** `get_highest_set_bit_unchecked`: the highest index; the caller guarantees the set is not empty. */
    function GetHighestSetBitUnchecked(): (index: bv64)
      requires bitfield != 0
      reads this
      ensures IsHighestSetBit(bitfield, index)
    {
      FindHighestSetBit(COUNT_LEADING_ZEROS_EXISTS, bitfield)
    }

    /** `get_lowest_set_bit`: `None` exactly for the empty set. */
    function GetLowestSetBit(): (result: Option<bv64>)
      reads this
      ensures result.None? <==> forall i: bv64 :: !BitSet(bitfield, i)
      ensures result.Some? ==> IsLowestSetBit(bitfield, result.value)
    {
      if IsEmpty() then None else Some(GetLowestSetBitUnchecked())
    }

    /** `get_highest_set_bit`: `None` exactly for the empty set. */
    function GetHighestSetBit(): (result: Option<bv64>)
      reads this
      ensures result.None? <==> forall i: bv64 :: !BitSet(bitfield, i)
      ensures result.Some? ==> IsHighestSetBit(bitfield, result.value)
    {
      if IsEmpty() then None else Some(GetHighestSetBitUnchecked())
    }
  }

  /** The checked and the unchecked getters agree on a nonempty set. */
  lemma GettersAgree(small: SmallBitField)
    requires small.bitfield != 0
    ensures small.GetLowestSetBit() == Some(small.GetLowestSetBitUnchecked())
    ensures small.GetHighestSetBit() == Some(small.GetHighestSetBitUnchecked())
  {
    NonzeroHasSetBit(small.bitfield);
  }

  /** Setting a bit twice is setting it once. */
  lemma SetBitIdempotent(word: bv64, index: bv64)
    requires index < SMALL_BIT_FIELD_BIT_SIZE
    ensures (word | (1 << index)) | (1 << index) == word | (1 << index)
  {
  }

  /** Clearing a bit twice is clearing it once. */
  lemma ClearBitIdempotent(word: bv64, index: bv64)
    requires index < SMALL_BIT_FIELD_BIT_SIZE
    ensures (word & !(1 << index)) & !(1 << index) == word & !(1 << index)
  {
  }

  /** After setting bit `index`, testing it gives `true`; after clearing it, `false`. */
  lemma TestAfterUpdate(word: bv64, index: bv64)
    requires index < SMALL_BIT_FIELD_BIT_SIZE
    ensures BitSet(word | (1 << index), index)
    ensures !BitSet(word & !(1 << index), index)
  {
    AddOneBit(word, index, index);
    RemoveOneBit(word, index, index);
  }

  /**
   * The field sequence of the unit tests: ORing in 0 changes nothing, the
   * fives and the a's together fill the word, and masking out the fives twice
   * and then 0 leaves the a's.
   */
  method FieldScenario() returns (small: SmallBitField)
    ensures small.bitfield == A_S
  {
    small := new SmallBitField();
    small.SetField(0);
    assert small.bitfield == 0;
    small.SetBit(1);
    small.SetField(FIVES);
    assert small.bitfield == FIVES | 2;
    small.SetField(FIVES);
    assert small.bitfield == FIVES | 2;
    small.SetField(A_S);
    assert small.bitfield == ALL_ONES;
    small.ClearField(FIVES);
    assert small.bitfield == A_S;
    small.ClearField(FIVES);
    small.ClearField(0);
  }
}

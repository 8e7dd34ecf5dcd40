/**
 * The monotonic allocator: a caller-provided heap of bytes and the index of
 * the next free byte. Allocation rounds the free index up to the requested
 * alignment and never moves it back; freeing does nothing.
 *
 * `usize` arithmetic is modelled on integers below 2^64 with the wrap-around
 * of a release build written out. For a power-of-two `align`, masking with
 * `!(align - 1)` clears the low bits, so the model computes it as `x - x % align`.
 */
module MonotonicAllocators {
  import opened Wrappers

  const USIZE_MODULUS: int := 0x1_0000_0000_0000_0000

  /** The largest length of a Rust slice, `isize::MAX`. */
  const ISIZE_MAX: int := 0x7FFF_FFFF_FFFF_FFFF

  type Usize = x: int | 0 <= x < USIZE_MODULUS

  /** `a + b` on `usize`, wrapping at 2^64. */
  function WrappingAdd(a: Usize, b: Usize): (sum: Usize)
    ensures a + b < USIZE_MODULUS ==> sum == a + b
    ensures a + b >= USIZE_MODULUS ==> sum == a + b - USIZE_MODULUS
  {
    if a + b < USIZE_MODULUS then a + b else a + b - USIZE_MODULUS
  }

  /** `a - b` on `usize`, wrapping at 2^64. */
  function WrappingSub(a: Usize, b: Usize): (difference: Usize)
    ensures b <= a ==> difference == a - b
    ensures a < b ==> difference == a - b + USIZE_MODULUS
  {
    if b <= a then a - b else a - b + USIZE_MODULUS
  }

  ghost predicate IsPowerOfTwo(n: int)
    decreases if n < 0 then 0 else n
  {
    n == 1 || (n >= 2 && n % 2 == 0 && IsPowerOfTwo(n / 2))
  }

  /** Of two powers of two, the one below twice the other is at most the other. */
  lemma {:induction false} PowerBelowDouble(p: int, q: int)
    requires IsPowerOfTwo(p) && IsPowerOfTwo(q) && q < 2 * p
    ensures q <= p
    decreases p
  {
    if p != 1 && q != 1 {
      PowerBelowDouble(p / 2, q / 2);
    }
  }

  /** Doubling a power of two gives a power of two. */
  lemma DoublePower(p: int)
    requires IsPowerOfTwo(p)
    ensures IsPowerOfTwo(2 * p)
  {
    assert (2 * p) / 2 == p;
  }

  /** The search behind `next_power_of_two`, doubling from `p`. */
  function NextPowerOfTwoFrom(n: nat, p: nat): (power: nat)
    requires IsPowerOfTwo(p)
    requires p == 1 || p / 2 < n
    ensures IsPowerOfTwo(power) && n <= power
    ensures power == 1 || power / 2 < n
    decreases n - p
  {
    if n <= p then p
    else
      DoublePower(p);
      assert (2 * p) / 2 == p;
      NextPowerOfTwoFrom(n, 2 * p)
  }

  /** `usize::next_power_of_two`: the least power of two at or above `n`; 1 for 0. */
  function NextPowerOfTwo(n: nat): (power: nat)
    ensures IsPowerOfTwo(power) && n <= power
    ensures power == 1 || power / 2 < n
  {
    NextPowerOfTwoFrom(n, 1)
  }

  /** No power of two at or above `n` is below `NextPowerOfTwo(n)`. */
  lemma NextPowerOfTwoLeast(n: nat, q: int)
    requires IsPowerOfTwo(q) && n <= q
    ensures NextPowerOfTwo(n) <= q
  {
    var p := NextPowerOfTwo(n);
    if p != 1 {
      HalfPower(p);
      if q < p {
        PowerBelowDouble(p / 2, q);
      }
    }
  }

  lemma HalfPower(p: int)
    requires IsPowerOfTwo(p) && p != 1
    ensures IsPowerOfTwo(p / 2) && 2 * (p / 2) == p
  {
  }

  /** The next power of two of a slice length fits in a `usize`. */
  lemma NextPowerOfTwoFits(n: nat)
    requires n <= ISIZE_MAX
    ensures NextPowerOfTwo(n) <= ISIZE_MAX + 1
  {
    PowerOfTwoLimit();
    NextPowerOfTwoLeast(n, ISIZE_MAX + 1);
  }

  /** 2^k, to name the powers of two. */
  function Pow2(k: nat): (p: nat)
  {
    if k == 0 then 1 else 2 * Pow2(k - 1)
  }

  lemma {:induction false} Pow2IsPowerOfTwo(k: nat)
    ensures IsPowerOfTwo(Pow2(k))
  {
    if k > 0 {
      Pow2IsPowerOfTwo(k - 1);
      assert Pow2(k) / 2 == Pow2(k - 1);
    }
  }

  lemma {:induction false} Pow2Add(a: nat, b: nat)
    ensures Pow2(a + b) == Pow2(a) * Pow2(b)
    decreases a
  {
    if a > 0 {
      Pow2Add(a - 1, b);
      assert Pow2(a + b) == 2 * Pow2(a - 1 + b);
    }
  }

  lemma Pow2At63()
    ensures Pow2(63) == ISIZE_MAX + 1
  {
    assert Pow2(7) == 0x80;
    Pow2Add(7, 7);
    assert Pow2(14) == 0x4000;
    Pow2Add(14, 14);
    assert Pow2(28) == 0x1000_0000;
    Pow2Add(28, 28);
    assert Pow2(56) == 0x0100_0000_0000_0000;
    Pow2Add(56, 7);
  }

  /** 2^63, one more than `isize::MAX`, is a power of two. */
  lemma PowerOfTwoLimit()
    ensures IsPowerOfTwo(ISIZE_MAX + 1)
  {
    Pow2At63();
    Pow2IsPowerOfTwo(63);
  }

  /** The low bits of `x` below a power-of-two `align` cleared: `x & !(align - 1)`. */
  function ClearLowBits(x: Usize, align: Usize): (cleared: Usize)
    requires 0 < align
    ensures cleared <= x
  {
    x - x % align
  }

  /**
   * `aligned_index`: `(index + (align - 1)) & !(align - 1)` for a power-of-two
   * `align`. The sum wraps at the width of `usize`; clearing the low bits of a
   * word leaves the multiple of `align` at or below it.
   */
  function AlignedIndex(index: Usize, align: Usize): (aligned: Usize)
    requires 0 < align
  {
    ClearLowBits(WrappingAdd(index, align - 1), align)
  }

  /**
   * Without wrap-around, the aligned index is the least multiple of `align`
   * at or above `index`.
   */
  lemma AlignedIndexLeast(index: Usize, align: Usize, multiple: int)
    requires 0 < align && index + align - 1 < USIZE_MODULUS
    ensures AlignedIndex(index, align) % align == 0
    ensures index <= AlignedIndex(index, align) < index + align
    ensures multiple % align == 0 && index <= multiple ==> AlignedIndex(index, align) <= multiple
  {
    var sum := index + (align - 1);
    assert AlignedIndex(index, align) == sum - sum % align;
    RoundedDown(sum, align, index, multiple);
  }

  /** `sum - sum % d` is a multiple of `d`, above `sum - d`, and below no multiple above `sum - d`. */
  lemma RoundedDown(sum: int, d: int, low: int, multiple: int)
    requires 0 < d && 0 <= sum && low == sum - (d - 1)
    ensures (sum - sum % d) % d == 0
    ensures low <= sum - sum % d <= sum
    ensures multiple % d == 0 && low <= multiple ==> sum - sum % d <= multiple
  {
    DivMod(sum, d);
    ModOfMultiple(sum / d, d);
    if multiple % d == 0 && low <= multiple && multiple < sum - sum % d {
      DivMod(multiple, d);
      BetweenMultiples(multiple / d, sum / d, d);
    }
  }

  lemma DivMod(x: int, d: int)
    requires 0 <= x && 0 < d
    ensures x - x % d == (x / d) * d && 0 <= x % d < d && 0 <= x / d
  {
  }

  lemma MulNonneg(a: int, b: int)
    requires 0 <= a && 0 <= b
    ensures 0 <= a * b
  {
  }

  /** Distinct multiples of `d` are at least `d` apart. */
  lemma BetweenMultiples(a: int, b: int, d: int)
    requires 0 < d && a < b
    ensures a * d + d <= b * d
  {
    MulNonneg(b - a - 1, d);
    assert (b - a - 1) * d == b * d - a * d - d;
  }

  lemma ModOfMultiple(q: int, d: int)
    requires 0 < d && 0 <= q
    ensures (q * d) % d == 0
  {
    var m := q * d;
    var a := m / d;
    var r := m % d;
    assert m == d * a + r;
    assert d * (q - a) == r;
    if q - a >= 1 {
      BetweenMultiples(a, q, d);
    } else if q - a <= -1 {
      BetweenMultiples(q, a, d);
    }
  }

  /** An index aligned already is its own aligned index; 0 is aligned to everything. */
  lemma AlignedIndexOfZero(align: Usize)
    requires 0 < align
    ensures AlignedIndex(0, align) == 0
  {
    AlignedIndexLeast(0, align, 0);
  }

  /** The fit test of `alloc_memory`, as written: `heap.len() - aligned_index >= size` on `usize`. */
  predicate FitsAsWritten(heapLength: Usize, aligned: Usize, size: Usize)
  {
    WrappingSub(heapLength, aligned) >= size
  }

  /**
   * When the aligned index lies inside the heap, the test passes exactly when
   * the whole block fits.
   */
  lemma FitsAsWrittenInside(heapLength: Usize, aligned: Usize, size: Usize)
    requires aligned <= heapLength
    ensures FitsAsWritten(heapLength, aligned, size) <==> aligned + size <= heapLength
  {
  }

  /** The fit test the allocator needs: the block starts and ends inside the heap. */
  predicate FitsInHeap(heapLength: Usize, aligned: Usize, size: Usize)
  {
    aligned <= heapLength && heapLength - aligned >= size
  }

  lemma FitsInHeapMeaning(heapLength: Usize, aligned: Usize, size: Usize)
    ensures FitsInHeap(heapLength, aligned, size) <==> aligned + size <= heapLength
  {
  }

  /** Past the end of the heap the written test wraps and passes for any size below the wrapped gap. */
  lemma FitsAsWrittenPastEnd(heapLength: Usize, aligned: Usize, size: Usize)
    requires heapLength < aligned && size <= USIZE_MODULUS - (aligned - heapLength)
    ensures FitsAsWritten(heapLength, aligned, size) && !FitsInHeap(heapLength, aligned, size)
  {
  }

  class MonotonicAllocator {
    /** The heap memory to be given out. */
    const heap: array<bv8>

    /** The next free byte of the heap. */
    var freeIndex: Usize

    /** The free index lies inside the heap, and the heap is a Rust slice. */
    ghost predicate Valid()
      reads this
    {
      heap.Length <= ISIZE_MAX && freeIndex <= heap.Length
    }

    constructor (backingMemory: array<bv8>)
      requires backingMemory.Length <= ISIZE_MAX
      ensures heap == backingMemory && freeIndex == 0 && Valid()
    {
      heap := backingMemory;
      freeIndex := 0;
    }

    /**
     * `new`: a heap whose address is not a multiple of the next power of two
     * of its length is refused and left as it was; otherwise it is zeroed and
     * the allocator starts at byte 0.
     */
    static method New(backingMemory: array<bv8>, address: Usize) returns (allocator: Option<MonotonicAllocator>)
      requires backingMemory.Length <= ISIZE_MAX
      modifies backingMemory
      ensures allocator.None? <==> address % NextPowerOfTwo(backingMemory.Length) != 0
      ensures allocator.None? ==> unchanged(backingMemory)
      ensures allocator.Some? ==> fresh(allocator.value) && allocator.value.Valid()
      ensures allocator.Some? ==> allocator.value.heap == backingMemory && allocator.value.freeIndex == 0
      ensures allocator.Some? ==> forall i :: 0 <= i < backingMemory.Length ==> backingMemory[i] == 0
    {
      var desiredAlignment := NextPowerOfTwo(backingMemory.Length);
      if address % desiredAlignment != 0 {
        return None;
      }
      var internal := new MonotonicAllocator(backingMemory);
      internal.ZeroHeap();
      allocator := Some(internal);
    }

    /** The zeroing loop of `new`: every heap byte becomes 0. */
    method ZeroHeap()
      modifies heap
      ensures forall j :: 0 <= j < heap.Length ==> heap[j] == 0
    {
      var i := 0;
      while i < heap.Length
        invariant 0 <= i <= heap.Length
        invariant forall j :: 0 <= j < i ==> heap[j] == 0
      {
        heap[i] := 0;
        i := i + 1;
      }
    }

    /** `free_space`: the number of bytes from the free index to the end of the heap. */
    function FreeSpace(): (space: Usize)
      requires Valid()
      reads this
      ensures freeIndex + space == heap.Length
    {
      WrappingSub(heap.Length, freeIndex)
    }

    /**
     * `alloc_memory`, as written: the free index is rounded up to `align`, and
     * when the written fit test passes the aligned index is returned and
     * becomes the free index; otherwise nothing changes and the result is
     * `None` (the null pointer).
     */
    method AllocMemory(align: Usize, size: Usize) returns (offset: Option<Usize>)
      requires heap.Length <= ISIZE_MAX && IsPowerOfTwo(align)
      modifies this
      ensures var aligned := AlignedIndex(old(freeIndex), align);
        if FitsAsWritten(heap.Length, aligned, size)
        then offset == Some(aligned) && freeIndex == aligned
        else offset == None && freeIndex == old(freeIndex)
      ensures old(freeIndex) + align - 1 < USIZE_MODULUS ==> old(freeIndex) <= freeIndex
      ensures old(freeIndex) == 0 ==> freeIndex == 0 && (offset.Some? ==> offset.value == 0)
    {
      AlignedIndexOfZero(align);
      if freeIndex + align - 1 < USIZE_MODULUS {
        AlignedIndexLeast(freeIndex, align, 0);
      }
      var alignedIndex := AlignedIndex(freeIndex, align);
      if WrappingSub(heap.Length, alignedIndex) >= size {
        freeIndex := alignedIndex;
        return Some(alignedIndex);
      }
      return None;
    }

    /**
     * `alloc_memory` as evidently intended: the block must end inside the
     * heap, and the free index moves past it.
     */
    method AllocMemoryAdvancing(align: Usize, size: Usize) returns (offset: Option<Usize>)
      requires Valid() && IsPowerOfTwo(align)
      modifies this
      ensures Valid()
      ensures var aligned := AlignedIndex(old(freeIndex), align);
        if FitsInHeap(heap.Length, aligned, size)
        then offset == Some(aligned) && freeIndex == aligned + size
        else offset == None && freeIndex == old(freeIndex)
      ensures offset.Some? ==> old(freeIndex) <= offset.value && offset.value + size == freeIndex
    {
      PowerOfTwoLimit();
      PowerAtMostLimit(align);
      AlignedIndexLeast(freeIndex, align, 0);
      var alignedIndex := AlignedIndex(freeIndex, align);
      if alignedIndex <= heap.Length && heap.Length - alignedIndex >= size {
        freeIndex := alignedIndex + size;
        return Some(alignedIndex);
      }
      return None;
    }

    /** `dealloc`: freeing changes nothing. */
    method Dealloc(offset: Usize, align: Usize, size: Usize)
      modifies this
      ensures freeIndex == old(freeIndex)
    {
    }
  }

  /** Every power of two that fits in a `usize` is at most 2^63. */
  lemma PowerAtMostLimit(p: Usize)
    requires IsPowerOfTwo(p)
    ensures p <= ISIZE_MAX + 1
  {
    PowerOfTwoLimit();
    if p > ISIZE_MAX + 1 {
      PowerBelowDouble(ISIZE_MAX + 1, p);
    }
  }

  /**
   * As written, the free index never leaves 0: two allocations of 8 bytes
   * from a fresh 16-byte heap both start at byte 0 and overlap.
   */
  method SecondAllocationOverlaps() returns (first: Option<Usize>, second: Option<Usize>)
    ensures first == Some(0) && second == Some(0)
  {
    var memory := new bv8[16];
    var created := MonotonicAllocator.New(memory, 0);
    var allocator := created.value;
    first := allocator.AllocMemory(8, 8);
    second := allocator.AllocMemory(8, 8);
  }

  /** With the free index advanced, the second block follows the first. */
  method SecondAllocationFollows() returns (first: Option<Usize>, second: Option<Usize>)
    ensures first == Some(0) && second == Some(8)
  {
    var memory := new bv8[16];
    var created := MonotonicAllocator.New(memory, 0);
    var allocator := created.value;
    first := allocator.AllocMemoryAdvancing(8, 8);
    second := allocator.AllocMemoryAdvancing(8, 8);
  }
}

# raztos-util in Dafny: fast bitfields, De Bruijn bit search, monotonic allocator

This project models the core of `raztos-util`, a small Rust utility crate for a
real-time kernel, and proves what its code promises:

- **De Bruijn bit search** (`debruijn.dfy`, module `DeBruijn`). For 8-, 16-, 32- and
  64-bit words it isolates the lowest set bit with `v & (!v + 1)`, multiplies it by a
  De Bruijn constant, takes the top window and looks the result up in a table. It
  finds the highest set bit by reversing the word. Proved: every lookup stays inside
  its table, and every table is a permutation that inverts the window of each
  single-bit word. Each search returns the lowest set position, or 0 for 0. It agrees
  with the naive scan of the tests, and the highest-bit search returns the most
  significant set position.
- **The word-level search of the bitfields** (`fast_bitfield.dfy`, module
  `FastBitField`). It runs the processor's count-zeros instruction when the target
  has one, and the De Bruijn search otherwise. Proved: both paths return the same
  position for every nonzero word.
- **The small bitfield** (`small_bitfield.dfy`, class `SmallBitFields.SmallBitField`):
  one machine word holding a set of indices 0..63.
- **The large bitfield** (`large_bitfield.dfy`, class `LargeBitFields.LargeBitField`):
  64 group words plus a layer word (`layerCache`). Bit `g` of the layer word says
  whether group `g` is nonzero. Every mutator is proved to keep this invariant, and
  the lowest and highest searches use it to go straight to the right group.
- **The monotonic allocator** (`monotonic_allocator.dfy`, class
  `MonotonicAllocators.MonotonicAllocator`): a byte heap plus a free index that
  allocation rounds up to the requested alignment.

Shared vocabulary lives in `bits.dfy`:

- which positions of a 64-bit word are set;
- what ORing in or masking out a word does to that set;
- bit reversal.

`wrappers.dfy` holds the `Option` type.

`usize` is modelled as `bv64`, so the native width is 64. In the allocator,
`usize` is an integer below 2^64, and the release-build wrap-around of `+` and `-`
is written out as `WrappingAdd` and `WrappingSub`.

## Model

| member | source | states |
|---|---|---|
| DeBruijn.GetLowestSetBit8 | src/algorithms/debruijin.rs:103-107 | the 8-bit search returns the lowest set position, or 0 for 0 |
| DeBruijn.GetLowestSetBit16 | src/algorithms/debruijin.rs:109-113 | the 16-bit search returns the lowest set position, or 0 for 0 |
| DeBruijn.GetLowestSetBit32 | src/algorithms/debruijin.rs:115-119 | the 32-bit search returns the lowest set position, or 0 for 0 |
| DeBruijn.GetLowestSetBit64 | src/algorithms/debruijin.rs:121-125 | the 64-bit search returns the lowest set position, or 0 for 0 |
| DeBruijn.LowestSetBit64Correct | src/algorithms/debruijin.rs:121-125 | the isolate-multiply-shift-lookup chain yields the lowest set position, or 0 for 0 |
| DeBruijn.LowestSetBit64Isolated | src/algorithms/debruijin.rs:40-44 | for a nonzero word, the isolated bit is a single-bit word, the table maps its window back to that bit's position, and that position is the lowest set one |
| DeBruijn.IsolateIsLowestBit | src/algorithms/debruijin.rs:40-41 | `v & (!v + 1)` is `1 << i`, where `i` is the lowest set position of `v` |
| DeBruijn.IsolateZero | src/algorithms/debruijin.rs:40-41 | isolating the lowest bit of 0 gives 0 at every width |
| DeBruijn.Indices8Permutation | src/algorithms/debruijin.rs:54-58 | every 8-bit table entry is below 8, the window of `1 << entry` at slot `i` is `i` again, and the lookup inverts every `1 << p` |
| DeBruijn.Indices16Permutation | src/algorithms/debruijin.rs:64-70 | the same for the 16-bit table |
| DeBruijn.Indices32Permutation | src/algorithms/debruijin.rs:76-83 | the same for the 32-bit table |
| DeBruijn.Indices64Permutation | src/algorithms/debruijin.rs:89-97 | the same for the 64-bit table |
| DeBruijn.IsolatedBit8 | src/algorithms/debruijin.rs:103-107 | the 8-bit search maps `1 << p` to `p` for every `p < 8` |
| DeBruijn.IsolatedBit16 | src/algorithms/debruijin.rs:109-113 | the 16-bit search maps `1 << p` to `p` for every `p < 16` |
| DeBruijn.IsolatedBit32 | src/algorithms/debruijin.rs:249-275 | the 32-bit search maps `1 << p` to `p` for every `p < 32` |
| DeBruijn.IsolatedBit64 | src/algorithms/debruijin.rs:312-338 | the 64-bit search maps `1 << p` to `p` for every `p < 64` |
| DeBruijn.GetLowestSetBit | src/algorithms/debruijin.rs:143-155 | at native width 64: the lowest set position, or 0 for 0 |
| DeBruijn.GetHighestSetBit | src/algorithms/debruijin.rs:170-173 | the highest set position of a nonzero word; 63 for 0 |
| DeBruijn.HighestSetBitCorrect | src/algorithms/debruijin.rs:46-47 | `64 - lowest(reverse(v)) - 1` is the highest set position of a nonzero `v` |
| DeBruijn.SimpleLowestSetBit | src/algorithms/debruijin.rs:187-199 | the scan of the tests returns the lowest set position, or 0 when no bit is set (loop invariant: no bit below the scan position is set) |
| DeBruijn.LowestSetBit8MatchesScan | src/algorithms/debruijin.rs:205-221 | for every 8-bit value, the De Bruijn result equals the scan's result |
| DeBruijn.LowestSetBit16MatchesScan | src/algorithms/debruijin.rs:227-243 | for every 16-bit value, the De Bruijn result equals the scan's result |
| DeBruijn.DocumentedExamples | src/algorithms/debruijin.rs:132-163 | lowest(5) is 0 and highest(5) is 2 |
| DeBruijn.BoundaryCases32 | src/algorithms/debruijin.rs:276-305 | the 32-bit search gives 0 for 0 and for all ones, and 1 for 0xAAAAAAAA |
| DeBruijn.BoundaryCases64 | src/algorithms/debruijin.rs:339-370 | the 64-bit search gives 0 for 0 and for all ones, and 1 for 0xAAAA_AAAA_AAAA_AAAA |
| BitReverse.ReverseBitsSpec | src/algorithms/debruijin.rs:170-173 | bit `i` of the reversed word is bit `63 - i` of the original |
| BitReverse.ReverseBitsInvolution | src/algorithms/debruijin.rs:170-173 | reversing twice gives the word back |
| FastBitField.FindLowestSetBit | src/collections/fast_bitfield/mod.rs:135-141 | on either path, the lowest set position of a nonzero word; 64 (instruction) or 0 (De Bruijn) for 0 |
| FastBitField.FindHighestSetBit | src/collections/fast_bitfield/mod.rs:150-156 | on either path, the highest set position of a nonzero word; for 0, the wrapped all-ones word (instruction) or 63 (De Bruijn) |
| FastBitField.TrailingZerosSpec | src/collections/fast_bitfield/mod.rs:136-137 | `trailing_zeros` is the lowest set position, and it is 64 exactly for 0 |
| FastBitField.LeadingZerosSpec | src/collections/fast_bitfield/mod.rs:151-152 | `63 - leading_zeros` is the highest set position, and the count is 64 exactly for 0 |
| FastBitField.NativeMatchesDeBruijn | src/collections/fast_bitfield/mod.rs:135-156 | for a nonzero word, the instruction path and the De Bruijn path return the same lowest and the same highest position |
| FastBitField.LowestNotAboveHighest | src/collections/fast_bitfield/mod.rs:135-156 | for a nonzero word, lowest <= highest < 64 on either path |
| SmallBitFields.SmallBitField.constructor | src/collections/fast_bitfield/small_bitfield.rs:38-40 | `new` gives the empty word |
| SmallBitFields.SmallBitField.GetNumberOfBits | src/collections/fast_bitfield/small_bitfield.rs:53-55 | the count is exactly the number of positions of the full word, 64: an index is below it exactly when it is a bit position, and every set position lies below it |
| SmallBitFields.SmallBitField.SetField | src/collections/fast_bitfield/small_bitfield.rs:19-21 | the word becomes the old word ORed with `field` |
| SmallBitFields.SmallBitField.ClearField | src/collections/fast_bitfield/small_bitfield.rs:27-29 | the word becomes `old & !field` |
| SmallBitFields.SmallBitField.SetBit | src/collections/fast_bitfield/small_bitfield.rs:61-65 | sets bit `index` below 64; a larger index leaves the word unchanged |
| SmallBitFields.SmallBitField.ClearBit | src/collections/fast_bitfield/small_bitfield.rs:71-75 | clears bit `index` below 64; a larger index leaves the word unchanged |
| SmallBitFields.SmallBitField.SetBitUnchecked | src/collections/fast_bitfield/small_bitfield.rs:251-253 | sets bit `index`; the caller guarantees `index < 64` |
| SmallBitFields.SmallBitField.ClearBitUnchecked | src/collections/fast_bitfield/small_bitfield.rs:263-265 | clears bit `index`; the caller guarantees `index < 64` |
| SmallBitFields.SmallBitField.IsEmpty | src/collections/fast_bitfield/small_bitfield.rs:187-189 | true exactly when no position is set |
| SmallBitFields.SmallBitField.TestBitUnchecked | src/collections/fast_bitfield/small_bitfield.rs:294-296 | whether bit `index` is set |
| SmallBitFields.SmallBitField.TestBit | src/collections/fast_bitfield/small_bitfield.rs:156-169 | `None` exactly for an index of 64 or more; otherwise whether the bit is set |
| SmallBitFields.SmallBitField.GetLowestSetBitUnchecked | src/collections/fast_bitfield/small_bitfield.rs:213-215 | the lowest set position of a nonempty set |
| SmallBitFields.SmallBitField.GetHighestSetBitUnchecked | src/collections/fast_bitfield/small_bitfield.rs:239-241 | the highest set position of a nonempty set |
| SmallBitFields.SmallBitField.GetLowestSetBit | src/collections/fast_bitfield/small_bitfield.rs:97-103 | `None` exactly for the empty set; otherwise the lowest set position |
| SmallBitFields.SmallBitField.GetHighestSetBit | src/collections/fast_bitfield/small_bitfield.rs:125-131 | `None` exactly for the empty set; otherwise the highest set position |
| SmallBitFields.GettersAgree | src/collections/fast_bitfield/small_bitfield.rs:97-131 | on a nonempty set, the checked getters return `Some` of the unchecked ones |
| SmallBitFields.SetBitIdempotent | src/collections/fast_bitfield/small_bitfield.rs:61-65 | setting a bit twice is setting it once |
| SmallBitFields.ClearBitIdempotent | src/collections/fast_bitfield/small_bitfield.rs:71-75 | clearing a bit twice is clearing it once |
| SmallBitFields.TestAfterUpdate | src/collections/fast_bitfield/small_bitfield.rs:331-409 | after setting bit `index` it tests as set; after clearing it, as clear |
| SmallBitFields.FieldScenario | src/collections/fast_bitfield/small_bitfield.rs:520-577 | the test's field sequence: ORing in 0 changes nothing, fives then a's give all ones, and masking out the fives leaves the a's |
| Bits.AddOneBit | src/collections/fast_bitfield/small_bitfield.rs:61-65 | setting bit `index` adds exactly position `index` |
| Bits.RemoveOneBit | src/collections/fast_bitfield/small_bitfield.rs:71-75 | clearing bit `index` removes exactly position `index` |
| Bits.AddBits | src/collections/fast_bitfield/small_bitfield.rs:19-21 | ORing in a field adds exactly the field's positions |
| Bits.RemoveBits | src/collections/fast_bitfield/small_bitfield.rs:27-29 | masking out a field removes exactly the field's positions |
| LargeBitFields.LargeBitField.constructor | src/collections/fast_bitfield/large_bitfield.rs:226-231 | `new` gives 64 zero groups and a zero cache, which satisfies the cache invariant |
| LargeBitFields.LargeBitField.GetNumberOfBits | src/collections/fast_bitfield/large_bitfield.rs:245-247 | the count is exactly the number of indices of the full bitfield, 4096: an index is below it exactly when the full bitfield holds it, and every index in any set lies below it |
| LargeBitFields.LargeBitField.TestGroupUnchecked | src/collections/fast_bitfield/large_bitfield.rs:168-170 | the cache bit of a group is set exactly when its word is nonzero |
| LargeBitFields.LargeBitField.TestGroup | src/collections/fast_bitfield/large_bitfield.rs:47-60 | `None` exactly for a group of 64 or more; otherwise whether the group's word is nonzero |
| LargeBitFields.LargeBitField.SetGroupUnchecked | src/collections/fast_bitfield/large_bitfield.rs:182-194 | ORs the field into the group and keeps the cache invariant |
| LargeBitFields.LargeBitField.ClearGroupUnchecked | src/collections/fast_bitfield/large_bitfield.rs:206-217 | masks the field out of the group and keeps the cache invariant |
| LargeBitFields.LargeBitField.SetGroup | src/collections/fast_bitfield/large_bitfield.rs:71-82 | as the unchecked form for a group below 64; otherwise nothing changes |
| LargeBitFields.LargeBitField.ClearGroup | src/collections/fast_bitfield/large_bitfield.rs:93-104 | as the unchecked form for a group below 64; otherwise nothing changes |
| LargeBitFields.SetGroupLayer | src/collections/fast_bitfield/large_bitfield.rs:186-193 | the branch-free update `(1 << g) * flag` ORs in the group's bit exactly when the field is nonzero |
| LargeBitFields.ClearGroupLayer | src/collections/fast_bitfield/large_bitfield.rs:213-216 | the branch-free update masks out the group's bit exactly when the group became 0 |
| LargeBitFields.MulByFlag | src/collections/fast_bitfield/large_bitfield.rs:188-189 | multiplying by a 0/1 flag gives the mask or 0 |
| LargeBitFields.CacheAfterSetGroup | src/collections/fast_bitfield/large_bitfield.rs:182-194 | after ORing a field into a group, with its bit flagged when the field is nonzero, the cache invariant still holds |
| LargeBitFields.CacheAfterClearGroup | src/collections/fast_bitfield/large_bitfield.rs:206-217 | after masking a field out of a group, with its bit unflagged when the group is 0, the cache invariant still holds |
| LargeBitFields.CacheDetermined | src/collections/fast_bitfield/large_bitfield.rs:12-18 | the group words fix the cache: two caches valid for the same groups are equal |
| LargeBitFields.LargeBitField.SetField | src/collections/fast_bitfield/large_bitfield.rs:110-120 | the loop ORs `values[g]` into every group `g` in turn and keeps the invariant (loop invariant: the first `index` groups are combined) |
| LargeBitFields.LargeBitField.ClearField | src/collections/fast_bitfield/large_bitfield.rs:126-136 | the loop masks `values[g]` out of every group `g` and keeps the invariant |
| LargeBitFields.SetFieldMeaning | src/collections/fast_bitfield/large_bitfield.rs:110-120 | after `set_field`, an index is in the set exactly when it was before or its bit is set in `values` |
| LargeBitFields.ClearFieldMeaning | src/collections/fast_bitfield/large_bitfield.rs:126-136 | after `clear_field`, an index is in the set exactly when it was before and its bit is not set in `values` |
| LargeBitFields.SetFieldIdempotent | src/collections/fast_bitfield/large_bitfield.rs:833-932 | setting the same field twice gives the set of setting it once |
| LargeBitFields.ClearFieldIdempotent | src/collections/fast_bitfield/large_bitfield.rs:833-932 | clearing the same field twice gives the set of clearing it once |
| LargeBitFields.FullCache | src/collections/fast_bitfield/large_bitfield.rs:12-18 | when every group is nonzero, the only valid cache is `usize::MAX` |
| LargeBitFields.ZeroCache | src/collections/fast_bitfield/large_bitfield.rs:12-18 | when every group is zero, the only valid cache is 0 |
| LargeBitFields.LargeFieldScenario | src/collections/fast_bitfield/large_bitfield.rs:833-932 | the test's field sequence ends with the a's in every group and the cache at `usize::MAX`; on the way, zeros leave the cache 0, and after index 1 and the fives the cache is full |
| LargeBitFields.SetGroupMeaning | src/collections/fast_bitfield/large_bitfield.rs:182-194 | ORing a field into group `g` adds exactly the indices `g * 64 + b` for the field's bits `b` |
| LargeBitFields.ClearGroupMeaning | src/collections/fast_bitfield/large_bitfield.rs:206-217 | masking a field out of group `g` removes exactly those indices |
| LargeBitFields.LargeBitField.IsEmpty | src/collections/fast_bitfield/large_bitfield.rs:408-410 | the cache is 0 exactly when no index is in the set |
| LargeBitFields.EmptyMeaning | src/collections/fast_bitfield/large_bitfield.rs:408-410 | under the invariant, a zero cache means every group is empty, and a nonzero one means some index is set |
| LargeBitFields.LargeBitField.TestBitUnchecked | src/collections/fast_bitfield/large_bitfield.rs:558-564 | bit `index % 64` of group `index / 64` says whether `index` is in the set |
| LargeBitFields.LargeBitField.TestBit | src/collections/fast_bitfield/large_bitfield.rs:372-385 | `None` exactly for an index of 4096 or more; otherwise whether it is in the set |
| LargeBitFields.LargeBitField.GetLowestSetBitUnchecked | src/collections/fast_bitfield/large_bitfield.rs:436-448 | `lowest(cache) * 64 + lowest(group)` is the least index in a nonempty set |
| LargeBitFields.LargeBitField.GetHighestSetBitUnchecked | src/collections/fast_bitfield/large_bitfield.rs:474-486 | `highest(cache) * 64 + highest(group)` is the greatest index in a nonempty set |
| LargeBitFields.LowestIndexFromCache | src/collections/fast_bitfield/large_bitfield.rs:436-448 | the lowest flagged group's lowest bit is the least index: nothing lies below it in lower groups or in the same group |
| LargeBitFields.HighestIndexFromCache | src/collections/fast_bitfield/large_bitfield.rs:474-486 | the highest flagged group's highest bit is the greatest index |
| LargeBitFields.LargeBitField.GetLowestSetBit | src/collections/fast_bitfield/large_bitfield.rs:309-315 | `None` exactly for the empty set; otherwise the least index |
| LargeBitFields.LargeBitField.GetHighestSetBit | src/collections/fast_bitfield/large_bitfield.rs:339-345 | `None` exactly for the empty set; otherwise the greatest index |
| LargeBitFields.LargeBitField.SetBit | src/collections/fast_bitfield/large_bitfield.rs:253-265 | sets bit `index % 64` of group `index / 64` and keeps the invariant; an index of 4096 or more changes nothing |
| LargeBitFields.LargeBitField.ClearBit | src/collections/fast_bitfield/large_bitfield.rs:271-285 | clears that bit, unflags the group when it becomes 0, and keeps the invariant; an index of 4096 or more changes nothing |
| LargeBitFields.LargeBitField.SetBitUnchecked | src/collections/fast_bitfield/large_bitfield.rs:496-503 | the same update as `set_bit`; the caller guarantees the index is in range |
| LargeBitFields.LargeBitField.ClearBitUnchecked | src/collections/fast_bitfield/large_bitfield.rs:513-527 | the branch-free form of `clear_bit`, with the same new words and the invariant kept |
| LargeBitFields.UnflagIfEmpty | src/collections/fast_bitfield/large_bitfield.rs:281-284 | the cache bit of the group is cleared exactly when its word became 0 |
| LargeBitFields.SetBitMeaning | src/collections/fast_bitfield/large_bitfield.rs:253-265 | `set_bit` adds exactly `index` to the set |
| LargeBitFields.ClearBitMeaning | src/collections/fast_bitfield/large_bitfield.rs:271-285 | `clear_bit` removes exactly `index` from the set |
| LargeBitFields.SetBitIdempotent | src/collections/fast_bitfield/large_bitfield.rs:604-658 | setting a bit twice gives the set of setting it once |
| LargeBitFields.ClearBitIdempotent | src/collections/fast_bitfield/large_bitfield.rs:661-722 | clearing a bit twice gives the set of clearing it once |
| LargeBitFields.SetThenClear | src/collections/fast_bitfield/large_bitfield.rs:661-722 | clearing a bit just set leaves the other indices as they were and `index` out |
| MonotonicAllocators.MonotonicAllocator.New | src/allocators/monotonic_allocator.rs:74-103 | refuses (and leaves untouched) a heap whose address is not a multiple of the next power of two of its length; otherwise zeroes every byte and starts at free index 0 |
| MonotonicAllocators.MonotonicAllocator.ZeroHeap | src/allocators/monotonic_allocator.rs:97-100 | every heap byte becomes 0 (loop invariant: the bytes before `i` are 0) |
| MonotonicAllocators.NextPowerOfTwo | src/allocators/monotonic_allocator.rs:81 | a power of two at or above the length, with half of it below the length (1 for 0) |
| MonotonicAllocators.NextPowerOfTwoLeast | src/allocators/monotonic_allocator.rs:81 | no power of two at or above the length is smaller |
| MonotonicAllocators.NextPowerOfTwoFits | src/allocators/monotonic_allocator.rs:81 | for a slice length, the next power of two is at most 2^63, so it does not overflow |
| MonotonicAllocators.AlignedIndexLeast | src/allocators/monotonic_allocator.rs:50-51 | without wrap-around, the rounded-up index is a multiple of `align`, lies in `[index, index + align)`, and no multiple at or above `index` is smaller |
| MonotonicAllocators.AlignedIndexOfZero | src/allocators/monotonic_allocator.rs:50-51 | index 0 rounds up to 0 for every alignment |
| MonotonicAllocators.FitsAsWrittenInside | src/allocators/monotonic_allocator.rs:53 | when the aligned index is inside the heap, the fit test passes exactly when the block ends inside the heap |
| MonotonicAllocators.FitsAsWrittenPastEnd | src/allocators/monotonic_allocator.rs:53 | past the end of the heap, the subtraction wraps and the test passes although the block does not fit |
| MonotonicAllocators.MonotonicAllocator.AllocMemory | src/allocators/monotonic_allocator.rs:49-60 | when the fit test passes, returns the aligned index and makes it the free index; otherwise returns `None` and changes nothing; the free index never decreases without wrap-around, and from 0 it stays 0 |
| MonotonicAllocators.MonotonicAllocator.FreeSpace | src/allocators/monotonic_allocator.rs:109-112 | free index plus free space is the heap length |
| MonotonicAllocators.MonotonicAllocator.Dealloc | src/allocators/monotonic_allocator.rs:150 | freeing leaves the free index unchanged |
| MonotonicAllocators.SecondAllocationOverlaps | src/allocators/monotonic_allocator.rs:55 | as written, two 8-byte allocations from a fresh 16-byte heap both start at byte 0 |
| MonotonicAllocators.MonotonicAllocator.AllocMemoryAdvancing | src/allocators/monotonic_allocator.rs:49-60 | the allocation as evidently intended: it succeeds exactly when the block fits inside the heap, and it moves the free index past the block, keeping it inside the heap |
| MonotonicAllocators.FitsInHeapMeaning | src/allocators/monotonic_allocator.rs:53 | the corrected fit test passes exactly when the block ends inside the heap |
| MonotonicAllocators.SecondAllocationFollows | src/allocators/monotonic_allocator.rs:55 | with the corrected update, the second 8-byte block starts at byte 8 |

## Left out

- The large bitfield's groups are a `seq<bv64>` field that each method reassigns, not an array updated in place.
  The model therefore does not capture aliasing of the group array; no other code can see it.
- The mutators of the large bitfield state the new group words and the cache invariant, not the new cache word itself.
  `LargeBitFields.CacheDetermined` proves that the invariant fixes the cache word.
- DeBruijn.GetHighestSetBit: returns 63 for 0, as the code computes (`64 - 0 - 1`); the doc comment of `get_highest_set_bit` says 0. The model follows the code.
- FastBitField.FindHighestSetBit: on the instruction path, 0 gives `64 - 1 - 64`, which wraps to the all-ones word.
  The source leaves this case undefined. The model states the wrapped value, and callers only pass nonzero words.
- The `cfg!(target_pointer_width)` dispatch of `get_lowest_set_bit` is fixed at 64 bits.
  The 8-, 16- and 32-bit searches are still modelled and proved on their own. The unreachable `else { 0 }` branch is dropped.
- The count-leading-zeros capability comes from a build-time target-feature check.
  That check is not part of this model. `FastBitField.COUNT_LEADING_ZEROS_EXISTS` is an unspecified constant, and each word search takes the flag as a parameter, so every property holds for both values.
- The `FastBitField` trait is not a Dafny trait. Each class states the trait's contracts on its own members: `None` exactly for an invalid index or an empty set, and the lowest or highest set index.
- The no-branch and constant-time claims are timing properties and are not modelled.
  The branch-free multiply is modelled by its value and proved equal to the conditional update (`LargeBitFields.SetGroupLayer`, `LargeBitFields.ClearGroupLayer`).
- The allocator's `GlobalAlloc` and `Alloc` impls, `UnsafeCell`, `NonNull` and raw pointers are not modelled.
  Allocation returns an offset into the heap, null becomes `None`, and the heap's address is a parameter of `New`.
- MonotonicAllocators.AlignedIndex: computes `sum & !(align - 1)` as `sum - sum % align`, the value of that mask for a power-of-two `align`. The identity between the bit mask and the remainder is not proved.
- MonotonicAllocators.MonotonicAllocator.New: computes the address check `address & (p - 1) != 0` as `address % p != 0`, the same expression for the power of two `p`.
- Debug builds panic on `usize` overflow; the model follows release builds, which wrap.
- Concurrency is not modelled: the allocator is documented as not thread-safe, and the `sync` module holds only declarations.
- `println!` output in the tests is not modelled.

## Findings

| source | as written | input that shows it | evidently intended | confidence | as-written member | corrected member |
|---|---|---|---|---|---|---|
| src/allocators/monotonic_allocator.rs:55 | a successful allocation sets `free_index = aligned_index`, so the free index never moves past the block. From a fresh allocator it stays 0, and every allocation returns byte 0 | a fresh 16-byte heap; allocate 8 bytes with alignment 8 twice; both calls return offset 0 and the blocks overlap | `free_index = aligned_index + size`, as the module comment says: allocation increments the free index | high; not executed | MonotonicAllocators.SecondAllocationOverlaps | MonotonicAllocators.MonotonicAllocator.AllocMemoryAdvancing |
| src/allocators/monotonic_allocator.rs:53 | `heap.len() - aligned_index` wraps (or panics, in debug builds) once the rounded-up index passes the end of the heap. The wrapped difference passes the fit test | heap length 10, aligned index 12, size 1: `10 - 12` wraps to 2^64 - 2 >= 1, so an offset past the heap would be returned. This is unreachable while line 55 stays as written, and reachable once it is corrected | fail when `aligned_index > heap.len()` | medium; not executed | MonotonicAllocators.FitsAsWrittenPastEnd | MonotonicAllocators.FitsInHeapMeaning |

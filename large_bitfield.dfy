/**
 * The large fast bitfield: 64 group words of 64 bits each, 4096 indices in
 * all, plus a layer-cache word whose bit `g` records whether group `g` has any
 * bit set. Index `i` lives in bit `i % 64` of group `i / 64`.
 */
module LargeBitFields {
  import opened Bits
  import opened FastBitField
  import opened Wrappers
  import opened DeBruijn

  /** The number of groups: the width of `usize`. */
  const LARGE_BIT_FIELD_GROUP_COUNT: bv64 := 64

  /** The number of indices: one bit per group bit. */
  const LARGE_BIT_FIELD_BIT_SIZE: bv64 := 4096

  /** Every bit of every group set: the words of the full bitfield. */
  function FullGroups(): (groups: seq<bv64>)
    ensures |groups| == 64 && forall k :: 0 <= k < 64 ==> groups[k] == ALL_ONES
  {
    seq(64, _ => ALL_ONES)
  }

  /*
   * The group words. The fixed-size array is a sequence of 64 words; `Word`
   * reads word `g`, as `bitfield[g]` does, and `Replace` stores one, as
   * `bitfield[g] = word` does.
   */

  function Word(groups: seq<bv64>, g: bv64): bv64
    requires |groups| == 64 && g < 64
  {
    groups[g]
  }

  function Replace(groups: seq<bv64>, g: bv64, word: bv64): (groups': seq<bv64>)
    requires |groups| == 64 && g < 64
    ensures |groups'| == 64
  {
    groups[g := word]
  }

  /** The stored word reads back. */
  lemma ReplaceSame(groups: seq<bv64>, g: bv64, word: bv64)
    requires |groups| == 64 && g < 64
    ensures Word(Replace(groups, g, word), g) == word
  {
  }

  /** Storing a word leaves every other word alone. */
  lemma ReplaceOther(groups: seq<bv64>, g: bv64, h: bv64, word: bv64)
    requires |groups| == 64 && g < 64 && h < 64 && h != g
    ensures Word(Replace(groups, g, word), h) == Word(groups, h)
  {
  }

  /*
   * The layer-cache invariant, stated for an arbitrary bit predicate `bit` so
   * that the lemmas that combine an update of the cache with an update of the
   * groups never unfold the bit arithmetic; the invariant itself instantiates
   * `bit` with `BitSet`.
   */

  /** `bit(layer, g)` holds exactly for the nonempty groups `g`. */
  ghost predicate CacheMatches(bit: (bv64, bv64) -> bool, layer: bv64, groups: seq<bv64>)
  {
    |groups| == 64 &&
    forall g: bv64 :: g < 64 ==> (bit(layer, g) <==> Word(groups, g) != 0)
  }

  /** `layer'` flags the same groups as `layer`, except perhaps group `g`. */
  ghost predicate CacheAgreesExcept(bit: (bv64, bv64) -> bool, layer: bv64, layer': bv64, g: bv64)
  {
    forall h: bv64 :: h < 64 && h != g ==> (bit(layer', h) <==> bit(layer, h))
  }

  /** `groups'` holds the same words as `groups`, except perhaps at group `g`. */
  ghost predicate GroupsAgreeExcept(groups: seq<bv64>, groups': seq<bv64>, g: bv64)
  {
    |groups| == 64 && |groups'| == 64 &&
    forall h: bv64 :: h < 64 && h != g ==> Word(groups', h) == Word(groups, h)
  }

  /** The class invariant: bit `g` of the layer cache is set iff group `g` is nonzero. */
  ghost predicate LayerCacheValid(layer: bv64, groups: seq<bv64>)
  {
    CacheMatches(BitSet, layer, groups)
  }

  lemma CacheMatchesAt(bit: (bv64, bv64) -> bool, layer: bv64, groups: seq<bv64>, g: bv64)
    requires CacheMatches(bit, layer, groups) && g < 64
    ensures bit(layer, g) <==> Word(groups, g) != 0
  {
  }

  lemma UpdateAgreesExcept(groups: seq<bv64>, g: bv64, word: bv64)
    requires |groups| == 64 && g < 64
    ensures GroupsAgreeExcept(groups, Replace(groups, g, word), g)
  {
    forall h: bv64 | h < 64 && h != g
      ensures Word(Replace(groups, g, word), h) == Word(groups, h)
    {
      ReplaceOther(groups, g, h, word);
    }
  }

  /**
   * Changing one group and the cache bit of that group only keeps the cache
   * matching, provided the new cache bit describes the new word.
   */
  lemma CacheMatchesUpdate(bit: (bv64, bv64) -> bool, layer: bv64, layer': bv64,
                           groups: seq<bv64>, groups': seq<bv64>, g: bv64)
    requires g < 64
    requires CacheMatches(bit, layer, groups)
    requires CacheAgreesExcept(bit, layer, layer', g)
    requires GroupsAgreeExcept(groups, groups', g)
    requires bit(layer', g) <==> Word(groups', g) != 0
    ensures CacheMatches(bit, layer', groups')
  {
  }

  /** Storing a word in group `g` keeps the invariant when cache bit `g` is updated to describe it. */
  lemma CacheAfterReplace(layer: bv64, layer': bv64, groups: seq<bv64>, g: bv64, word: bv64)
    requires LayerCacheValid(layer, groups) && g < 64
    requires CacheAgreesExcept(BitSet, layer, layer', g)
    requires BitSet(layer', g) <==> word != 0
    ensures LayerCacheValid(layer', Replace(groups, g, word))
  {
    UpdateAgreesExcept(groups, g, word);
    ReplaceSame(groups, g, word);
    CacheMatchesUpdate(BitSet, layer, layer', groups, Replace(groups, g, word), g);
  }

  /** Setting bit `g` of a word changes no other bit. */
  lemma SetBitElsewhere(layer: bv64, g: bv64, h: bv64)
    requires g < 64 && h != g
    ensures BitSet(layer | (1 << g), h) <==> BitSet(layer, h)
  {
  }

  /** Clearing bit `g` of a word changes no other bit. */
  lemma ClearBitElsewhere(layer: bv64, g: bv64, h: bv64)
    requires g < 64 && h != g
    ensures BitSet(layer & !(1 << g), h) <==> BitSet(layer, h)
  {
  }

  lemma SetBitHere(layer: bv64, g: bv64)
    requires g < 64
    ensures BitSet(layer | (1 << g), g)
  {
  }

  lemma ClearBitHere(layer: bv64, g: bv64)
    requires g < 64
    ensures !BitSet(layer & !(1 << g), g)
  {
  }

  /** Setting cache bit `g` flags group `g` and leaves the other flags alone. */
  lemma SetCacheBit(layer: bv64, g: bv64)
    requires g < 64
    ensures CacheAgreesExcept(BitSet, layer, layer | (1 << g), g)
    ensures BitSet(layer | (1 << g), g)
  {
    forall h: bv64 | h < 64 && h != g
      ensures BitSet(layer | (1 << g), h) <==> BitSet(layer, h)
    {
      SetBitElsewhere(layer, g, h);
    }
    SetBitHere(layer, g);
  }

  /** Clearing cache bit `g` unflags group `g` and leaves the other flags alone. */
  lemma ClearCacheBit(layer: bv64, g: bv64)
    requires g < 64
    ensures CacheAgreesExcept(BitSet, layer, layer & !(1 << g), g)
    ensures !BitSet(layer & !(1 << g), g)
  {
    forall h: bv64 | h < 64 && h != g
      ensures BitSet(layer & !(1 << g), h) <==> BitSet(layer, h)
    {
      ClearBitElsewhere(layer, g, h);
    }
    ClearBitHere(layer, g);
  }

  lemma OrNonzero(word: bv64, field: bv64)
    requires field != 0
    ensures word | field != 0
  {
  }

  lemma OrZero(word: bv64, field: bv64)
    requires field == 0
    ensures word | field == word
  {
  }

  /*
   * Word-level steps. The truth values `cr` and `cw` stand for facts about
   * the group words (typically `Contains`), so that the callers combine them
   * without reasoning about bits themselves.
   */

  /** Bit `b` of `r == w | f` is set iff it is set in `w` or in `f`. */
  lemma OrWordBit(r: bv64, w: bv64, f: bv64, b: bv64, cr: bool, cw: bool)
    requires r == w | f
    requires cr <==> BitSet(r, b)
    requires cw <==> BitSet(w, b)
    ensures cr <==> cw || BitSet(f, b)
  {
    AddBits(w, f, b);
  }

  /** Bit `b` of `r == w & !f` is set iff it is set in `w` and not in `f`. */
  lemma AndNotWordBit(r: bv64, w: bv64, f: bv64, b: bv64, cr: bool, cw: bool)
    requires r == w & !f
    requires cr <==> BitSet(r, b)
    requires cw <==> BitSet(w, b)
    ensures cr <==> cw && !BitSet(f, b)
  {
    RemoveBits(w, f, b);
  }

  /** A word that is still nonzero after masking was nonzero before. */
  lemma AndNotNonzero(word: bv64, field: bv64)
    requires word & !field != 0
    ensures word != 0
  {
  }

  /**
   * ORing `field` into group `g` keeps the invariant when cache bit `g` is
   * set for a nonzero field and left alone for a zero one.
   */
  lemma CacheAfterSetGroup(layer: bv64, layer': bv64, groups: seq<bv64>, g: bv64, field: bv64, word: bv64)
    requires LayerCacheValid(layer, groups) && g < 64
    requires word == Word(groups, g) | field
    requires layer' == if field != 0 then layer | (1 << g) else layer
    ensures LayerCacheValid(layer', Replace(groups, g, word))
  {
    if field != 0 {
      SetCacheBit(layer, g);
      OrNonzero(Word(groups, g), field);
    } else {
      CacheMatchesAt(BitSet, layer, groups, g);
      OrZero(Word(groups, g), field);
    }
    CacheAfterReplace(layer, layer', groups, g, word);
  }

  /**
   * Masking `field` out of group `g` keeps the invariant when cache bit `g`
   * is cleared if the word became 0 and left alone otherwise.
   */
  lemma CacheAfterClearGroup(layer: bv64, layer': bv64, groups: seq<bv64>, g: bv64, field: bv64, word: bv64)
    requires LayerCacheValid(layer, groups) && g < 64
    requires word == Word(groups, g) & !field
    requires layer' == if word == 0 then layer & !(1 << g) else layer
    ensures LayerCacheValid(layer', Replace(groups, g, word))
  {
    if word == 0 {
      ClearCacheBit(layer, g);
    } else {
      CacheMatchesAt(BitSet, layer, groups, g);
      AndNotNonzero(Word(groups, g), field);
    }
    CacheAfterReplace(layer, layer', groups, g, word);
  }

  /** The branch-free product `mask * flag` of a 0/1 flag is `mask` or 0. */
  lemma MulByFlag(mask: bv64, flag: bv64)
    requires flag == 0 || flag == 1
    ensures mask * flag == if flag == 1 then mask else 0
  {
  }

  /**
   * The branch-free cache update of `set_group_unchecked`: the flag of a
   * nonzero field times the group's bit is ORed into the layer cache.
   */
  method SetGroupLayer(layer: bv64, groupIndex: bv64, groupField: bv64) returns (layer': bv64)
    requires groupIndex < LARGE_BIT_FIELD_GROUP_COUNT
    ensures layer' == if groupField != 0 then layer | (1 << groupIndex) else layer
  {
    var fieldHasValues: bv64 := if groupField != 0 then 1 else 0;
    var groupBit: bv64 := 1 << groupIndex;
    var layerCacheUpdate := groupBit * fieldHasValues;
    MulByFlag(groupBit, fieldHasValues);
    layer' := layer | layerCacheUpdate;
  }

  /**
   * The branch-free cache update of `clear_group_unchecked`: the flag of an
   * emptied group times the group's bit is masked out of the layer cache.
   */
  method ClearGroupLayer(layer: bv64, groupIndex: bv64, subfield: bv64) returns (layer': bv64)
    requires groupIndex < LARGE_BIT_FIELD_GROUP_COUNT
    ensures layer' == if subfield == 0 then layer & !(1 << groupIndex) else layer
  {
    var isClear: bv64 := if subfield == 0 then 1 else 0;
    var groupBit: bv64 := 1 << groupIndex;
    var layerCacheUpdate := groupBit * isClear;
    MulByFlag(groupBit, isClear);
    layer' := layer & !layerCacheUpdate;
  }

  /** The cache update of `clear_bit`: the group's flag is cleared, with a branch, when its word is 0. */
  method UnflagIfEmpty(layer: bv64, groupIndex: bv64, subField: bv64) returns (layer': bv64)
    requires groupIndex < LARGE_BIT_FIELD_GROUP_COUNT
    ensures layer' == if subField == 0 then layer & !(1 << groupIndex) else layer
  {
    layer' := layer;
    if subField == 0 {
      layer' := layer & !(1 << groupIndex);
    }
  }

  /*
   * Index arithmetic: index `i` below 4096 is bit `i % 64` of group `i / 64`.
   */

  lemma SplitIndex(index: bv64)
    requires index < LARGE_BIT_FIELD_BIT_SIZE
    ensures index / 64 < 64 && index % 64 < 64
  {
  }

  /** `bitfield.get_mut(index / 64)` finds a group exactly when the index is in range. */
  function GroupInRange(index: bv64): (found: bool)
    ensures found <==> index < LARGE_BIT_FIELD_BIT_SIZE
  {
    index / 64 < LARGE_BIT_FIELD_GROUP_COUNT
  }

  lemma NextGroup(g: bv64)
    requires g < 64
    ensures (g + 1) as int == g as int + 1
  {
  }

  lemma IndexBelow(j: bv64, g: bv64, b: bv64)
    requires g < 64 && b < 64 && j < g * 64 + b
    ensures j < LARGE_BIT_FIELD_BIT_SIZE
    ensures j / 64 < g || (j / 64 == g && j % 64 < b)
  {
  }

  lemma IndexAbove(j: bv64, g: bv64, b: bv64)
    requires g < 64 && b < 64 && g * 64 + b < j
    ensures g < j / 64 || (j / 64 == g && b < j % 64)
  {
  }

  /** Index `i` is in the set that the group words `groups` represent. */
  ghost predicate Contains(groups: seq<bv64>, i: bv64)
  {
    |groups| == 64 && i < LARGE_BIT_FIELD_BIT_SIZE && BitSet(Word(groups, i / 64), i % 64)
  }

  ghost predicate IsLowestIndex(groups: seq<bv64>, i: bv64)
  {
    Contains(groups, i) && forall j: bv64 :: j < i ==> !Contains(groups, j)
  }

  ghost predicate IsHighestIndex(groups: seq<bv64>, i: bv64)
  {
    Contains(groups, i) && forall j: bv64 :: i < j ==> !Contains(groups, j)
  }

  /** Index `i` of group `g` is bit `i % 64` of word `g`. */
  lemma ContainsAt(groups: seq<bv64>, i: bv64, g: bv64)
    requires |groups| == 64 && i < LARGE_BIT_FIELD_BIT_SIZE && g < 64 && i / 64 == g
    ensures Contains(groups, i) <==> BitSet(Word(groups, g), i % 64)
  {
  }

  lemma SingleBitNonzero(b: bv64)
    requires b < 64
    ensures (1 as bv64) << b != 0
  {
  }

  /** An index whose group is not flagged is not in the set. */
  lemma {:induction false} ContainsInEmptyGroup(layer: bv64, groups: seq<bv64>, j: bv64)
    requires LayerCacheValid(layer, groups) && j < LARGE_BIT_FIELD_BIT_SIZE
    requires !BitSet(layer, j / 64)
    ensures !Contains(groups, j)
  {
    SplitIndex(j);
    CacheMatchesAt(BitSet, layer, groups, j / 64);
  }

  /** Bit `bit` of group `level` is index `level * 64 + bit`. */
  lemma JoinedIndexInSet(groups: seq<bv64>, level: bv64, bit: bv64)
    requires |groups| == 64 && level < 64 && BitSet(Word(groups, level), bit)
    ensures Contains(groups, level * 64 + bit)
  {
  }

  /**
   * The layer cache is 0 exactly when no index is in the set. A nonzero cache
   * flags some group, whose lowest set bit gives an index in the set.
   */
  lemma {:induction false} EmptyMeaning(layer: bv64, groups: seq<bv64>)
    requires LayerCacheValid(layer, groups)
    ensures layer == 0 <==> forall i: bv64 :: !Contains(groups, i)
  {
    if layer == 0 {
      forall i: bv64
        ensures !Contains(groups, i)
      {
        if i < LARGE_BIT_FIELD_BIT_SIZE {
          ContainsInEmptyGroup(layer, groups, i);
        }
      }
    } else {
      var g := FindLowestSetBit(false, layer);
      CacheMatchesAt(BitSet, layer, groups, g);
      var b := FindLowestSetBit(false, Word(groups, g));
      JoinedIndexInSet(groups, g, b);
    }
  }

  /** Below the lowest flagged group, and below the lowest bit of its word, no index is in the set. */
  lemma {:induction false} NothingBelow(layer: bv64, groups: seq<bv64>, level: bv64, bit: bv64, j: bv64)
    requires LayerCacheValid(layer, groups) && level < 64 && bit < 64
    requires forall h: bv64 :: h < level ==> !BitSet(layer, h)
    requires forall c: bv64 :: c < bit ==> !BitSet(Word(groups, level), c)
    requires j < level * 64 + bit
    ensures !Contains(groups, j)
  {
    IndexBelow(j, level, bit);
    if j / 64 < level {
      ContainsInEmptyGroup(layer, groups, j);
    } else {
      NothingBelowInGroup(groups, level, bit, j);
    }
  }

  lemma NothingBelowInGroup(groups: seq<bv64>, level: bv64, bit: bv64, j: bv64)
    requires |groups| == 64 && level < 64
    requires forall c: bv64 :: c < bit ==> !BitSet(Word(groups, level), c)
    requires j / 64 == level && j % 64 < bit
    ensures !Contains(groups, j)
  {
  }

  /** Above the highest flagged group, and above the highest bit of its word, no index is in the set. */
  lemma {:induction false} NothingAbove(layer: bv64, groups: seq<bv64>, level: bv64, bit: bv64, j: bv64)
    requires LayerCacheValid(layer, groups) && level < 64 && bit < 64
    requires forall h: bv64 :: level < h ==> !BitSet(layer, h)
    requires forall c: bv64 :: bit < c ==> !BitSet(Word(groups, level), c)
    requires level * 64 + bit < j
    ensures !Contains(groups, j)
  {
    IndexAbove(j, level, bit);
    if j < LARGE_BIT_FIELD_BIT_SIZE {
      if level < j / 64 {
        ContainsInEmptyGroup(layer, groups, j);
      } else {
        NothingAboveInGroup(groups, level, bit, j);
      }
    }
  }

  lemma NothingAboveInGroup(groups: seq<bv64>, level: bv64, bit: bv64, j: bv64)
    requires |groups| == 64 && level < 64
    requires forall c: bv64 :: bit < c ==> !BitSet(Word(groups, level), c)
    requires j / 64 == level && bit < j % 64
    ensures !Contains(groups, j)
  {
  }

  /**
   * The lowest flagged group and the lowest set bit of its word give the
   * lowest index in the set.
   */
  lemma {:induction false} LowestIndexFromCache(layer: bv64, groups: seq<bv64>, level: bv64, bit: bv64)
    requires LayerCacheValid(layer, groups) && level < 64
    requires IsLowestSetBit(layer, level) && IsLowestSetBit(Word(groups, level), bit)
    ensures IsLowestIndex(groups, level * 64 + bit)
  {
    JoinedIndexInSet(groups, level, bit);
    forall j: bv64 | j < level * 64 + bit
      ensures !Contains(groups, j)
    {
      NothingBelow(layer, groups, level, bit, j);
    }
  }

  /**
   * The highest flagged group and the highest set bit of its word give the
   * highest index in the set.
   */
  lemma {:induction false} HighestIndexFromCache(layer: bv64, groups: seq<bv64>, level: bv64, bit: bv64)
    requires LayerCacheValid(layer, groups) && level < 64
    requires IsHighestSetBit(layer, level) && IsHighestSetBit(Word(groups, level), bit)
    ensures IsHighestIndex(groups, level * 64 + bit)
  {
    JoinedIndexInSet(groups, level, bit);
    forall j: bv64 | level * 64 + bit < j
      ensures !Contains(groups, j)
    {
      NothingAbove(layer, groups, level, bit, j);
    }
  }

  /*
   * The updates of single bits, on the values of the fields.
   */

  /** The group words after setting bit `index`: bit `index % 64` of group `index / 64`. */
  function SetBitGroups(groups: seq<bv64>, index: bv64): seq<bv64>
    requires |groups| == 64 && index < LARGE_BIT_FIELD_BIT_SIZE
  {
    SplitIndex(index);
    Replace(groups, index / 64, Word(groups, index / 64) | (1 << (index % 64)))
  }

  /** The group words after clearing bit `index`. */
  function ClearBitGroups(groups: seq<bv64>, index: bv64): seq<bv64>
    requires |groups| == 64 && index < LARGE_BIT_FIELD_BIT_SIZE
  {
    SplitIndex(index);
    Replace(groups, index / 64, Word(groups, index / 64) & !(1 << (index % 64)))
  }

  /** The words `set_bit_unchecked` stores: group `index / 64` is flagged and its bit `index % 64` set. */
  method SetBitWords(layer: bv64, groups: seq<bv64>, index: bv64) returns (layer': bv64, groups': seq<bv64>)
    requires LayerCacheValid(layer, groups) && index < LARGE_BIT_FIELD_BIT_SIZE
    ensures LayerCacheValid(layer', groups')
    ensures groups' == SetBitGroups(groups, index)
  {
    var topLayer := index / 64;
    var bottomLayer := index % 64;
    SplitIndex(index);
    var mask := 1 << bottomLayer;
    SingleBitNonzero(bottomLayer);
    layer' := layer | (1 << topLayer);
    var subField := Word(groups, topLayer) | mask;
    CacheAfterSetGroup(layer, layer', groups, topLayer, mask, subField);
    groups' := Replace(groups, topLayer, subField);
  }

  /**
   * The words `clear_bit` stores: bit `index % 64` of group `index / 64` is
   * cleared, and the group unflagged when its word becomes 0.
   */
  method ClearBitWords(layer: bv64, groups: seq<bv64>, index: bv64) returns (layer': bv64, groups': seq<bv64>)
    requires LayerCacheValid(layer, groups) && index < LARGE_BIT_FIELD_BIT_SIZE
    ensures LayerCacheValid(layer', groups')
    ensures groups' == ClearBitGroups(groups, index)
  {
    var topLayer := index / 64;
    var bottomLayer := index % 64;
    SplitIndex(index);
    var mask := 1 << bottomLayer;
    var subField := Word(groups, topLayer) & !mask;
    groups' := Replace(groups, topLayer, subField);
    layer' := UnflagIfEmpty(layer, topLayer, subField);
    CacheAfterClearGroup(layer, layer', groups, topLayer, mask, subField);
  }

  /** The words `clear_bit_unchecked` stores: the same update, with the cache bit cleared without a branch. */
  method ClearBitWordsBranchFree(layer: bv64, groups: seq<bv64>, index: bv64) returns (layer': bv64, groups': seq<bv64>)
    requires LayerCacheValid(layer, groups) && index < LARGE_BIT_FIELD_BIT_SIZE
    ensures LayerCacheValid(layer', groups')
    ensures groups' == ClearBitGroups(groups, index)
  {
    var topLayer := index / 64;
    var bottomLayer := index % 64;
    SplitIndex(index);
    var mask := 1 << bottomLayer;
    var subField := Word(groups, topLayer) & !mask;
    groups' := Replace(groups, topLayer, subField);
    layer' := ClearGroupLayer(layer, topLayer, subField);
    CacheAfterClearGroup(layer, layer', groups, topLayer, mask, subField);
  }

  /*
   * `set_field` and `clear_field` update the groups in order, combining group
   * `g` with `values[g]` by `combine`; after `n` steps the first `n` groups
   * are combined and the rest are as they were. Keeping `combine` abstract
   * keeps the word arithmetic out of the sequence reasoning.
   */

  function FieldPrefix(combine: (bv64, bv64) -> bv64, groups: seq<bv64>, values: seq<bv64>, n: int): (groups': seq<bv64>)
    requires |groups| == 64 && |values| == 64
    ensures |groups'| == 64
  {
    seq(64, k requires 0 <= k < 64 => if k < n then combine(groups[k], values[k]) else groups[k])
  }

  /** Before the first step no group is combined. */
  lemma FieldPrefixNone(combine: (bv64, bv64) -> bv64, groups: seq<bv64>, values: seq<bv64>)
    requires |groups| == 64 && |values| == 64
    ensures FieldPrefix(combine, groups, values, 0) == groups
  {
    assert forall k | 0 <= k < 64 :: FieldPrefix(combine, groups, values, 0)[k] == groups[k];
  }

  /** Every group `g` combined with `values[g]`. */
  function CombineAll(combine: (bv64, bv64) -> bv64, groups: seq<bv64>, values: seq<bv64>): (groups': seq<bv64>)
    requires |groups| == 64 && |values| == 64
    ensures |groups'| == 64 && forall k :: 0 <= k < 64 ==> groups'[k] == combine(groups[k], values[k])
  {
    FieldPrefix(combine, groups, values, 64)
  }

  /** Combining group `n` of the `n`-group prefix gives the `n + 1`-group prefix. */
  lemma FieldStep(combine: (bv64, bv64) -> bv64, groups: seq<bv64>, values: seq<bv64>, n: int)
    requires |groups| == 64 && |values| == 64 && 0 <= n < 64
    ensures FieldPrefix(combine, groups, values, n)[n := combine(FieldPrefix(combine, groups, values, n)[n], values[n])]
      == FieldPrefix(combine, groups, values, n + 1)
  {
    var before := FieldPrefix(combine, groups, values, n);
    var after := FieldPrefix(combine, groups, values, n + 1);
    forall k | 0 <= k < 64
      ensures before[n := combine(before[n], values[n])][k] == after[k]
    {
    }
  }

  /** The word update of `set_field`. */
  function OrField(word: bv64, field: bv64): bv64
  {
    word | field
  }

  /** The word update of `clear_field`. */
  function AndNotField(word: bv64, field: bv64): bv64
  {
    word & !field
  }

  /** One iteration of `set_field` extends the prefix by one group. */
  lemma SetFieldStep(groups: seq<bv64>, values: seq<bv64>, index: bv64, before: seq<bv64>, after: seq<bv64>)
    requires |groups| == 64 && |values| == 64 && index < 64
    requires before == FieldPrefix(OrField, groups, values, index as int)
    requires after == Replace(before, index, Word(before, index) | Word(values, index))
    ensures after == FieldPrefix(OrField, groups, values, (index + 1) as int)
  {
    var n := index as int;
    NextGroup(index);
    var word := Word(before, index) | Word(values, index);
    assert word == OrField(before[n], values[n]);
    assert after == before[n := word];
    FieldStep(OrField, groups, values, n);
  }

  /** One iteration of `clear_field` extends the prefix by one group. */
  lemma ClearFieldStep(groups: seq<bv64>, values: seq<bv64>, index: bv64, before: seq<bv64>, after: seq<bv64>)
    requires |groups| == 64 && |values| == 64 && index < 64
    requires before == FieldPrefix(AndNotField, groups, values, index as int)
    requires after == Replace(before, index, Word(before, index) & !Word(values, index))
    ensures after == FieldPrefix(AndNotField, groups, values, (index + 1) as int)
  {
    var n := index as int;
    NextGroup(index);
    var word := Word(before, index) & !Word(values, index);
    assert word == AndNotField(before[n], values[n]);
    assert after == before[n := word];
    FieldStep(AndNotField, groups, values, n);
  }

  /** Group `g` of the combined words is the combination of the two words. */
  lemma CombinedWord(combine: (bv64, bv64) -> bv64, groups: seq<bv64>, values: seq<bv64>, g: bv64)
    requires |groups| == 64 && |values| == 64 && g < 64
    ensures Word(CombineAll(combine, groups, values), g) == combine(Word(groups, g), Word(values, g))
  {
  }

  /*
   * What the updates mean for the set of indices, and why the methods state
   * only the new group words: the invariant fixes the layer cache.
   */

  /** The group words determine the layer cache: two caches valid for the same groups are equal. */
  lemma CacheDetermined(layer: bv64, layer': bv64, groups: seq<bv64>)
    requires LayerCacheValid(layer, groups) && LayerCacheValid(layer', groups)
    ensures layer == layer'
  {
    forall g: bv64 | g < 64
      ensures BitSet(layer, g) <==> BitSet(layer', g)
    {
      CacheMatchesAt(BitSet, layer, groups, g);
      CacheMatchesAt(BitSet, layer', groups, g);
    }
    SameBitsSameWord(layer, layer');
  }

  /*
   * The meaning lemmas below are split so that each proof has a single path:
   * the verifier handles a case split over the bit arithmetic far better when
   * each case is a lemma of its own.
   */

  /** An index of another group is unaffected by storing a word in group `g`. */
  lemma ContainsReplaceOther(groups: seq<bv64>, g: bv64, word: bv64, i: bv64)
    requires |groups| == 64 && g < 64 && i < LARGE_BIT_FIELD_BIT_SIZE && i / 64 != g
    ensures Contains(Replace(groups, g, word), i) <==> Contains(groups, i)
  {
    SplitIndex(i);
    ReplaceOther(groups, g, i / 64, word);
  }

  lemma SetGroupSame(groups: seq<bv64>, g: bv64, field: bv64, i: bv64)
    requires |groups| == 64 && g < 64 && i < LARGE_BIT_FIELD_BIT_SIZE && i / 64 == g
    ensures Contains(Replace(groups, g, Word(groups, g) | field), i) <==>
      Contains(groups, i) || BitSet(field, i % 64)
  {
    var r := Replace(groups, g, Word(groups, g) | field);
    ReplaceSame(groups, g, Word(groups, g) | field);
    ContainsAt(r, i, g);
    ContainsAt(groups, i, g);
    OrWordBit(Word(r, g), Word(groups, g), field, i % 64, Contains(r, i), Contains(groups, i));
  }

  lemma ClearGroupSame(groups: seq<bv64>, g: bv64, field: bv64, i: bv64)
    requires |groups| == 64 && g < 64 && i < LARGE_BIT_FIELD_BIT_SIZE && i / 64 == g
    ensures Contains(Replace(groups, g, Word(groups, g) & !field), i) <==>
      Contains(groups, i) && !BitSet(field, i % 64)
  {
    var r := Replace(groups, g, Word(groups, g) & !field);
    ReplaceSame(groups, g, Word(groups, g) & !field);
    ContainsAt(r, i, g);
    ContainsAt(groups, i, g);
    AndNotWordBit(Word(r, g), Word(groups, g), field, i % 64, Contains(r, i), Contains(groups, i));
  }

  /** `set_group` adds exactly the indices of group `g` whose bits are set in `field`. */
  lemma SetGroupMeaning(groups: seq<bv64>, g: bv64, field: bv64, i: bv64)
    requires |groups| == 64 && g < 64
    ensures Contains(Replace(groups, g, Word(groups, g) | field), i) <==>
      Contains(groups, i) || (i < LARGE_BIT_FIELD_BIT_SIZE && i / 64 == g && BitSet(field, i % 64))
  {
    if i < LARGE_BIT_FIELD_BIT_SIZE {
      if i / 64 == g {
        SetGroupSame(groups, g, field, i);
      } else {
        ContainsReplaceOther(groups, g, Word(groups, g) | field, i);
      }
    }
  }

  /** `clear_group` removes exactly the indices of group `g` whose bits are set in `field`. */
  lemma ClearGroupMeaning(groups: seq<bv64>, g: bv64, field: bv64, i: bv64)
    requires |groups| == 64 && g < 64
    ensures Contains(Replace(groups, g, Word(groups, g) & !field), i) <==>
      Contains(groups, i) && !(i < LARGE_BIT_FIELD_BIT_SIZE && i / 64 == g && BitSet(field, i % 64))
  {
    if i < LARGE_BIT_FIELD_BIT_SIZE {
      if i / 64 == g {
        ClearGroupSame(groups, g, field, i);
      } else {
        ContainsReplaceOther(groups, g, Word(groups, g) & !field, i);
      }
    }
  }

  lemma SetBitSelf(groups: seq<bv64>, index: bv64)
    requires |groups| == 64 && index < LARGE_BIT_FIELD_BIT_SIZE
    ensures Contains(SetBitGroups(groups, index), index)
  {
    SplitIndex(index);
    ReplaceSame(groups, index / 64, Word(groups, index / 64) | (1 << (index % 64)));
  }

  lemma ClearBitSelf(groups: seq<bv64>, index: bv64)
    requires |groups| == 64 && index < LARGE_BIT_FIELD_BIT_SIZE
    ensures !Contains(ClearBitGroups(groups, index), index)
  {
    SplitIndex(index);
    ReplaceSame(groups, index / 64, Word(groups, index / 64) & !(1 << (index % 64)));
  }

  /** Another index of the same group sits at another bit position. */
  lemma NeighbourBit(index: bv64, i: bv64, bit: bv64)
    requires index < LARGE_BIT_FIELD_BIT_SIZE && i / 64 == index / 64 && i != index
    requires bit == 1 << (index % 64)
    ensures !BitSet(bit, i % 64)
  {
  }

  lemma SetBitNeighbour(groups: seq<bv64>, index: bv64, i: bv64)
    requires |groups| == 64 && index < LARGE_BIT_FIELD_BIT_SIZE && i < LARGE_BIT_FIELD_BIT_SIZE
    requires i / 64 == index / 64 && i != index
    ensures Contains(SetBitGroups(groups, index), i) <==> Contains(groups, i)
  {
    SplitIndex(index);
    var g, bit := index / 64, 1 << (index % 64);
    assert SetBitGroups(groups, index) == Replace(groups, g, Word(groups, g) | bit);
    SetGroupSame(groups, g, bit, i);
    NeighbourBit(index, i, bit);
  }

  lemma ClearBitNeighbour(groups: seq<bv64>, index: bv64, i: bv64)
    requires |groups| == 64 && index < LARGE_BIT_FIELD_BIT_SIZE && i < LARGE_BIT_FIELD_BIT_SIZE
    requires i / 64 == index / 64 && i != index
    ensures Contains(ClearBitGroups(groups, index), i) <==> Contains(groups, i)
  {
    SplitIndex(index);
    var g, bit := index / 64, 1 << (index % 64);
    assert ClearBitGroups(groups, index) == Replace(groups, g, Word(groups, g) & !bit);
    ClearGroupSame(groups, g, bit, i);
    NeighbourBit(index, i, bit);
  }

  lemma SetBitOther(groups: seq<bv64>, index: bv64, i: bv64)
    requires |groups| == 64 && index < LARGE_BIT_FIELD_BIT_SIZE && i < LARGE_BIT_FIELD_BIT_SIZE
    requires i / 64 != index / 64
    ensures Contains(SetBitGroups(groups, index), i) <==> Contains(groups, i)
  {
    SplitIndex(index);
    var g, bit := index / 64, 1 << (index % 64);
    var word := Word(groups, g) | bit;
    assert SetBitGroups(groups, index) == Replace(groups, g, word);
    ContainsReplaceOther(groups, g, word, i);
  }

  lemma ClearBitOther(groups: seq<bv64>, index: bv64, i: bv64)
    requires |groups| == 64 && index < LARGE_BIT_FIELD_BIT_SIZE && i < LARGE_BIT_FIELD_BIT_SIZE
    requires i / 64 != index / 64
    ensures Contains(ClearBitGroups(groups, index), i) <==> Contains(groups, i)
  {
    SplitIndex(index);
    SplitIndex(i);
    var g, bit := index / 64, 1 << (index % 64);
    var word := Word(groups, g) & !bit;
    assert ClearBitGroups(groups, index) == Replace(groups, g, word);
    ReplaceOther(groups, g, i / 64, word);
    assert Word(ClearBitGroups(groups, index), i / 64) == Word(groups, i / 64);
  }

  /** `set_bit` adds exactly `index`. */
  lemma SetBitMeaning(groups: seq<bv64>, index: bv64, i: bv64)
    requires |groups| == 64 && index < LARGE_BIT_FIELD_BIT_SIZE
    ensures Contains(SetBitGroups(groups, index), i) <==> Contains(groups, i) || i == index
  {
    if i == index {
      SetBitSelf(groups, index);
    } else if i < LARGE_BIT_FIELD_BIT_SIZE {
      if i / 64 == index / 64 {
        SetBitNeighbour(groups, index, i);
      } else {
        SetBitOther(groups, index, i);
      }
    }
  }

  /** `clear_bit` removes exactly `index`. */
  lemma ClearBitMeaning(groups: seq<bv64>, index: bv64, i: bv64)
    requires |groups| == 64 && index < LARGE_BIT_FIELD_BIT_SIZE
    ensures Contains(ClearBitGroups(groups, index), i) <==> Contains(groups, i) && i != index
  {
    if i == index {
      ClearBitSelf(groups, index);
    } else if i < LARGE_BIT_FIELD_BIT_SIZE {
      if i / 64 == index / 64 {
        ClearBitNeighbour(groups, index, i);
      } else {
        ClearBitOther(groups, index, i);
      }
    }
  }

  /** Whether index `i` is in the set depends only on the word of its group. */
  lemma ContainsSameWord(groups: seq<bv64>, groups': seq<bv64>, i: bv64)
    requires |groups| == 64 && |groups'| == 64 && i < LARGE_BIT_FIELD_BIT_SIZE
    requires i / 64 < 64 && Word(groups', i / 64) == Word(groups, i / 64)
    ensures Contains(groups', i) <==> Contains(groups, i)
  {
  }

  lemma SetFieldInRange(groups: seq<bv64>, values: seq<bv64>, i: bv64)
    requires |groups| == 64 && |values| == 64 && i < LARGE_BIT_FIELD_BIT_SIZE
    ensures Contains(CombineAll(OrField, groups, values), i) <==>
      Contains(groups, i) || BitSet(Word(values, i / 64), i % 64)
  {
    SplitIndex(i);
    var g := i / 64;
    var field := Word(values, g);
    var r := Replace(groups, g, Word(groups, g) | field);
    CombinedWord(OrField, groups, values, g);
    ReplaceSame(groups, g, Word(groups, g) | field);
    ContainsSameWord(r, CombineAll(OrField, groups, values), i);
    SetGroupSame(groups, g, field, i);
  }

  lemma ClearFieldInRange(groups: seq<bv64>, values: seq<bv64>, i: bv64)
    requires |groups| == 64 && |values| == 64 && i < LARGE_BIT_FIELD_BIT_SIZE
    ensures Contains(CombineAll(AndNotField, groups, values), i) <==>
      Contains(groups, i) && !BitSet(Word(values, i / 64), i % 64)
  {
    SplitIndex(i);
    var g := i / 64;
    var field := Word(values, g);
    var r := Replace(groups, g, Word(groups, g) & !field);
    CombinedWord(AndNotField, groups, values, g);
    ReplaceSame(groups, g, Word(groups, g) & !field);
    ContainsSameWord(r, CombineAll(AndNotField, groups, values), i);
    ClearGroupSame(groups, g, field, i);
  }

  /** `set_field` adds exactly the indices whose bits are set in `values`. */
  lemma SetFieldMeaning(groups: seq<bv64>, values: seq<bv64>, i: bv64)
    requires |groups| == 64 && |values| == 64
    ensures Contains(CombineAll(OrField, groups, values), i) <==>
      Contains(groups, i) || (i < LARGE_BIT_FIELD_BIT_SIZE && BitSet(Word(values, i / 64), i % 64))
  {
    if i < LARGE_BIT_FIELD_BIT_SIZE {
      SetFieldInRange(groups, values, i);
    }
  }

  /** `clear_field` removes exactly the indices whose bits are set in `values`. */
  lemma ClearFieldMeaning(groups: seq<bv64>, values: seq<bv64>, i: bv64)
    requires |groups| == 64 && |values| == 64
    ensures Contains(CombineAll(AndNotField, groups, values), i) <==>
      Contains(groups, i) && !(i < LARGE_BIT_FIELD_BIT_SIZE && BitSet(Word(values, i / 64), i % 64))
  {
    if i < LARGE_BIT_FIELD_BIT_SIZE {
      ClearFieldInRange(groups, values, i);
    }
  }

  /** Setting a bit that is already set adds nothing: `set_bit` is idempotent. */
  lemma SetBitIdempotent(groups: seq<bv64>, index: bv64, i: bv64)
    requires |groups| == 64 && index < LARGE_BIT_FIELD_BIT_SIZE
    ensures Contains(SetBitGroups(SetBitGroups(groups, index), index), i) <==>
      Contains(SetBitGroups(groups, index), i)
  {
    var once := SetBitGroups(groups, index);
    SetBitMeaning(groups, index, i);
    SetBitMeaning(once, index, i);
  }

  /** Clearing a bit that is already clear removes nothing: `clear_bit` is idempotent. */
  lemma ClearBitIdempotent(groups: seq<bv64>, index: bv64, i: bv64)
    requires |groups| == 64 && index < LARGE_BIT_FIELD_BIT_SIZE
    ensures Contains(ClearBitGroups(ClearBitGroups(groups, index), index), i) <==>
      Contains(ClearBitGroups(groups, index), i)
  {
    var once := ClearBitGroups(groups, index);
    ClearBitMeaning(groups, index, i);
    ClearBitMeaning(once, index, i);
  }

  /** Clearing a bit just set leaves the other indices as they were and `index` out. */
  lemma SetThenClear(groups: seq<bv64>, index: bv64, i: bv64)
    requires |groups| == 64 && index < LARGE_BIT_FIELD_BIT_SIZE
    ensures Contains(ClearBitGroups(SetBitGroups(groups, index), index), i) <==>
      Contains(groups, i) && i != index
  {
    var withBit := SetBitGroups(groups, index);
    SetBitMeaning(groups, index, i);
    ClearBitMeaning(withBit, index, i);
  }

  /** Setting a field twice is setting it once. */
  lemma SetFieldIdempotent(groups: seq<bv64>, values: seq<bv64>, i: bv64)
    requires |groups| == 64 && |values| == 64
    ensures Contains(CombineAll(OrField, CombineAll(OrField, groups, values), values), i) <==>
      Contains(CombineAll(OrField, groups, values), i)
  {
    var once := CombineAll(OrField, groups, values);
    SetFieldMeaning(groups, values, i);
    SetFieldMeaning(once, values, i);
  }

  /** Clearing a field twice is clearing it once. */
  lemma ClearFieldIdempotent(groups: seq<bv64>, values: seq<bv64>, i: bv64)
    requires |groups| == 64 && |values| == 64
    ensures Contains(CombineAll(AndNotField, CombineAll(AndNotField, groups, values), values), i) <==>
      Contains(CombineAll(AndNotField, groups, values), i)
  {
    var once := CombineAll(AndNotField, groups, values);
    ClearFieldMeaning(groups, values, i);
    ClearFieldMeaning(once, values, i);
  }

  class LargeBitField {
    var layerCache: bv64
    var bitfield: seq<bv64>

    ghost predicate Valid()
      reads this
    {
      LayerCacheValid(layerCache, bitfield)
    }

    /** `new`: the empty bitfield. */
    constructor ()
      ensures Valid()
      ensures layerCache == 0 && bitfield == seq(64, _ => 0)
    {
      layerCache := 0;
      bitfield := seq(64, _ => 0);
    }

    /** `get_number_of_bits`: every index in any set lies below this count. */
    static function GetNumberOfBits(): (n: bv64)
      ensures forall groups: seq<bv64>, i: bv64 :: Contains(groups, i) ==> i < n
      ensures forall i: bv64 :: i < n <==> Contains(FullGroups(), i)
    {
      LARGE_BIT_FIELD_BIT_SIZE
    }

    /** `test_group_unchecked`: reads the cache bit of a group, which says whether its word is nonzero. */
    function TestGroupUnchecked(groupIndex: bv64): (hasBits: bool)
      requires Valid() && groupIndex < LARGE_BIT_FIELD_GROUP_COUNT
      reads this
      ensures hasBits <==> Word(bitfield, groupIndex) != 0
    {
      CacheMatchesAt(BitSet, layerCache, bitfield, groupIndex);
      TestMask(layerCache, groupIndex)
    }

    /** `test_group`: `None` for a group past the end. */
    function TestGroup(groupIndex: bv64): (result: Option<bool>)
      requires Valid()
      reads this
      ensures result.Some? <==> groupIndex < LARGE_BIT_FIELD_GROUP_COUNT
      ensures result.Some? ==> (result.value <==> Word(bitfield, groupIndex) != 0)
    {
      if groupIndex < LARGE_BIT_FIELD_GROUP_COUNT then Some(TestGroupUnchecked(groupIndex)) else None
    }

    /** `set_group_unchecked`: ORs `groupField` into group `groupIndex`. */
    method SetGroupUnchecked(groupIndex: bv64, groupField: bv64)
      requires Valid() && groupIndex < LARGE_BIT_FIELD_GROUP_COUNT
      modifies this
      ensures Valid()
      ensures bitfield == Replace(old(bitfield), groupIndex, Word(old(bitfield), groupIndex) | groupField)
    {
      var layer := layerCache;
      var groups := bitfield;
      var layer' := SetGroupLayer(layer, groupIndex, groupField);
      var subfield := Word(groups, groupIndex) | groupField;
      CacheAfterSetGroup(layer, layer', groups, groupIndex, groupField, subfield);
      bitfield := Replace(groups, groupIndex, subfield);
      layerCache := layer';
    }

    /** `clear_group_unchecked`: masks `groupField` out of group `groupIndex`. */
    method ClearGroupUnchecked(groupIndex: bv64, groupField: bv64)
      requires Valid() && groupIndex < LARGE_BIT_FIELD_GROUP_COUNT
      modifies this
      ensures Valid()
      ensures bitfield == Replace(old(bitfield), groupIndex, Word(old(bitfield), groupIndex) & !groupField)
    {
      var layer := layerCache;
      var groups := bitfield;
      var subfield := Word(groups, groupIndex) & !groupField;
      var layer' := ClearGroupLayer(layer, groupIndex, subfield);
      CacheAfterClearGroup(layer, layer', groups, groupIndex, groupField, subfield);
      bitfield := Replace(groups, groupIndex, subfield);
      layerCache := layer';
    }

    /** `set_group`: a group past the end changes nothing. */
    method SetGroup(groupIndex: bv64, groupField: bv64)
      requires Valid()
      modifies this
      ensures Valid()
      ensures groupIndex < LARGE_BIT_FIELD_GROUP_COUNT ==>
        bitfield == Replace(old(bitfield), groupIndex, Word(old(bitfield), groupIndex) | groupField)
      ensures groupIndex >= LARGE_BIT_FIELD_GROUP_COUNT ==>
        bitfield == old(bitfield) && layerCache == old(layerCache)
    {
      if groupIndex < LARGE_BIT_FIELD_GROUP_COUNT {
        SetGroupUnchecked(groupIndex, groupField);
      }
    }

    /** `clear_group`: a group past the end changes nothing. */
    method ClearGroup(groupIndex: bv64, groupField: bv64)
      requires Valid()
      modifies this
      ensures Valid()
      ensures groupIndex < LARGE_BIT_FIELD_GROUP_COUNT ==>
        bitfield == Replace(old(bitfield), groupIndex, Word(old(bitfield), groupIndex) & !groupField)
      ensures groupIndex >= LARGE_BIT_FIELD_GROUP_COUNT ==>
        bitfield == old(bitfield) && layerCache == old(layerCache)
    {
      if groupIndex < LARGE_BIT_FIELD_GROUP_COUNT {
        ClearGroupUnchecked(groupIndex, groupField);
      }
    }

    /** `set_field`: ORs `values[g]` into every group `g`, one group at a time. */
    method SetField(values: seq<bv64>)
      requires Valid() && |values| == 64
      modifies this
      ensures Valid()
      ensures bitfield == CombineAll(OrField, old(bitfield), values)
    {
      FieldPrefixNone(OrField, bitfield, values);
      var index: bv64 := 0;
      while index < LARGE_BIT_FIELD_GROUP_COUNT
        invariant index <= 64 && Valid()
        invariant bitfield == FieldPrefix(OrField, old(bitfield), values, index as int)
        decreases 64 - index
      {
        ghost var before := bitfield;
        SetGroupUnchecked(index, Word(values, index));
        SetFieldStep(old(bitfield), values, index, before, bitfield);
        index := index + 1;
      }
    }

    /** `clear_field`: masks `values[g]` out of every group `g`, one group at a time. */
    method ClearField(values: seq<bv64>)
      requires Valid() && |values| == 64
      modifies this
      ensures Valid()
      ensures bitfield == CombineAll(AndNotField, old(bitfield), values)
    {
      FieldPrefixNone(AndNotField, bitfield, values);
      var index: bv64 := 0;
      while index < LARGE_BIT_FIELD_GROUP_COUNT
        invariant index <= 64 && Valid()
        invariant bitfield == FieldPrefix(AndNotField, old(bitfield), values, index as int)
        decreases 64 - index
      {
        ghost var before := bitfield;
        ClearGroupUnchecked(index, Word(values, index));
        ClearFieldStep(old(bitfield), values, index, before, bitfield);
        index := index + 1;
      }
    }

    /** `is_empty`: the cache is 0 exactly when no index is in the set. */
    function IsEmpty(): (empty: bool)
      requires Valid()
      reads this
      ensures empty <==> forall i: bv64 :: !Contains(bitfield, i)
    {
      EmptyMeaning(layerCache, bitfield);
      layerCache == 0
    }

    /** `test_bit_unchecked`: whether `index` is in the set. */
    function TestBitUnchecked(index: bv64): (isSet: bool)
      requires Valid() && index < LARGE_BIT_FIELD_BIT_SIZE
      reads this
      ensures isSet <==> Contains(bitfield, index)
    {
      SplitIndex(index);
      TestMask(Word(bitfield, index / 64), index % 64)
    }

    /** `test_bit`: `None` for an index past the end, else whether it is set. */
    function TestBit(index: bv64): (result: Option<bool>)
      requires Valid()
      reads this
      ensures result.Some? <==> index < LARGE_BIT_FIELD_BIT_SIZE
      ensures result.Some? ==> (result.value <==> Contains(bitfield, index))
    {
      if index < LARGE_BIT_FIELD_BIT_SIZE then Some(TestBitUnchecked(index)) else None
    }

    /**
     * `get_lowest_set_bit_unchecked`: the lowest flagged group, then the lowest
     * bit of its word. The caller guarantees the set is not empty.
     */
    function GetLowestSetBitUnchecked(): (index: bv64)
      requires Valid() && layerCache != 0
      reads this
      ensures IsLowestIndex(bitfield, index)
    {
      var level := FindLowestSetBit(COUNT_LEADING_ZEROS_EXISTS, layerCache);
      CacheMatchesAt(BitSet, layerCache, bitfield, level);
      var bit := FindLowestSetBit(COUNT_LEADING_ZEROS_EXISTS, Word(bitfield, level));
      LowestIndexFromCache(layerCache, bitfield, level, bit);
      level * 64 + bit
    }

    /**
     * `get_highest_set_bit_unchecked`: the highest flagged group, then the
     * highest bit of its word. The caller guarantees the set is not empty.
     */
    function GetHighestSetBitUnchecked(): (index: bv64)
      requires Valid() && layerCache != 0
      reads this
      ensures IsHighestIndex(bitfield, index)
    {
      var level := FindHighestSetBit(COUNT_LEADING_ZEROS_EXISTS, layerCache);
      CacheMatchesAt(BitSet, layerCache, bitfield, level);
      var bit := FindHighestSetBit(COUNT_LEADING_ZEROS_EXISTS, Word(bitfield, level));
      HighestIndexFromCache(layerCache, bitfield, level, bit);
      level * 64 + bit
    }

    /** `get_lowest_set_bit`: `None` exactly for the empty set. */
    function GetLowestSetBit(): (result: Option<bv64>)
      requires Valid()
      reads this
      ensures result.None? <==> forall i: bv64 :: !Contains(bitfield, i)
      ensures result.Some? ==> IsLowestIndex(bitfield, result.value)
    {
      if IsEmpty() then None else Some(GetLowestSetBitUnchecked())
    }

    /** `get_highest_set_bit`: `None` exactly for the empty set. */
    function GetHighestSetBit(): (result: Option<bv64>)
      requires Valid()
      reads this
      ensures result.None? <==> forall i: bv64 :: !Contains(bitfield, i)
      ensures result.Some? ==> IsHighestIndex(bitfield, result.value)
    {
      if IsEmpty() then None else Some(GetHighestSetBitUnchecked())
    }

    /** `set_bit_unchecked`: flags the group and sets the bit; the caller guarantees the index is in range. */
    method SetBitUnchecked(index: bv64)
      requires Valid() && index < LARGE_BIT_FIELD_BIT_SIZE
      modifies this
      ensures Valid()
      ensures bitfield == SetBitGroups(old(bitfield), index)
    {
      layerCache, bitfield := SetBitWords(layerCache, bitfield, index);
    }

    /**
     * `set_bit`: an index whose group is past the end changes nothing;
     * otherwise the update is the one of `set_bit_unchecked`.
     */
    method SetBit(index: bv64)
      requires Valid()
      modifies this
      ensures Valid()
      ensures index < LARGE_BIT_FIELD_BIT_SIZE ==> bitfield == SetBitGroups(old(bitfield), index)
      ensures index >= LARGE_BIT_FIELD_BIT_SIZE ==> bitfield == old(bitfield) && layerCache == old(layerCache)
    {
      if !GroupInRange(index) {
        return;
      }
      layerCache, bitfield := SetBitWords(layerCache, bitfield, index);
    }

    /**
     * `clear_bit`: an index whose group is past the end changes nothing;
     * otherwise the bit is cleared and the group unflagged when it becomes 0.
     */
    method ClearBit(index: bv64)
      requires Valid()
      modifies this
      ensures Valid()
      ensures index < LARGE_BIT_FIELD_BIT_SIZE ==> bitfield == ClearBitGroups(old(bitfield), index)
      ensures index >= LARGE_BIT_FIELD_BIT_SIZE ==> bitfield == old(bitfield) && layerCache == old(layerCache)
    {
      if !GroupInRange(index) {
        return;
      }
      layerCache, bitfield := ClearBitWords(layerCache, bitfield, index);
    }

    /** `clear_bit_unchecked`: the branch-free variant; the caller guarantees the index is in range. */
    method ClearBitUnchecked(index: bv64)
      requires Valid() && index < LARGE_BIT_FIELD_BIT_SIZE
      modifies this
      ensures Valid()
      ensures bitfield == ClearBitGroups(old(bitfield), index)
    {
      layerCache, bitfield := ClearBitWordsBranchFree(layerCache, bitfield, index);
    }
  }

  /** A cache valid for groups that are all nonzero flags every group. */
  lemma FullCache(layer: bv64, groups: seq<bv64>)
    requires LayerCacheValid(layer, groups)
    requires forall k :: 0 <= k < |groups| ==> groups[k] != 0
    ensures layer == ALL_ONES
  {
    forall g: bv64 | g < 64
      ensures BitSet(layer, g) <==> BitSet(ALL_ONES, g)
    {
      CacheMatchesAt(BitSet, layer, groups, g);
    }
    SameBitsSameWord(layer, ALL_ONES);
  }

  /** A cache valid for groups that are all zero flags none. */
  lemma ZeroCache(layer: bv64, groups: seq<bv64>)
    requires LayerCacheValid(layer, groups)
    requires forall k :: 0 <= k < |groups| ==> groups[k] == 0
    ensures layer == 0
  {
    forall g: bv64 | g < 64
      ensures !BitSet(layer, g)
    {
      CacheMatchesAt(BitSet, layer, groups, g);
    }
    ZeroIfNoBitSet(layer);
  }

  /** Group words whose group 0 holds `first` and every other group `rest`. */
  function Groups(first: bv64, rest: bv64): (groups: seq<bv64>)
    ensures |groups| == 64
  {
    seq(64, k => if k == 0 then first else rest)
  }

  /** Combining two such shapes word by word gives the shape of the combined words. */
  lemma CombineGroups(combine: (bv64, bv64) -> bv64, first: bv64, rest: bv64, first': bv64, rest': bv64)
    ensures CombineAll(combine, Groups(first, rest), Groups(first', rest')) ==
      Groups(combine(first, first'), combine(rest, rest'))
  {
    var combined := CombineAll(combine, Groups(first, rest), Groups(first', rest'));
    assert forall k | 0 <= k < 64 :: combined[k] == Groups(combine(first, first'), combine(rest, rest'))[k];
  }

  /** Index 1 is bit 1 of group 0. */
  lemma SetBitOne(rest: bv64)
    ensures SetBitGroups(Groups(0, rest), 1) == Groups(2, rest)
  {
    assert (1 as bv64) / 64 == 0 && (1 as bv64) % 64 == 1 && (0 as bv64) | (1 << 1) == 2;
    assert forall k | 0 <= k < 64 :: SetBitGroups(Groups(0, rest), 1)[k] == Groups(2, rest)[k];
  }

  /** With both words nonzero, every group is flagged. */
  lemma FullCacheOfGroups(layer: bv64, first: bv64, rest: bv64)
    requires LayerCacheValid(layer, Groups(first, rest)) && first != 0 && rest != 0
    ensures layer == ALL_ONES
  {
    FullCache(layer, Groups(first, rest));
  }

  /** The same word in every group. */
  lemma UniformGroups(word: bv64)
    ensures Groups(word, word) == seq(64, _ => word)
  {
    assert forall k | 0 <= k < 64 :: Groups(word, word)[k] == seq(64, _ => word)[k];
  }

  /**
   * The field sequence of the unit tests: ORing in zeros changes nothing;
   * after setting index 1 the fives fill every group, again to no further
   * change, and the a's then set every bit and every cache bit; masking out
   * the fives twice and then zeros leaves the a's in every group with the
   * cache still full.
   */
  method LargeFieldScenario() returns (large: LargeBitField)
    ensures large.Valid()
    ensures large.bitfield == seq(64, _ => A_S)
    ensures large.layerCache == ALL_ONES
  {
    var zeros, fives, aS := Groups(0, 0), Groups(FIVES, FIVES), Groups(A_S, A_S);
    UniformGroups(0);
    large := new LargeBitField();
    large.SetField(zeros);
    CombineGroups(OrField, 0, 0, 0, 0);
    assert large.bitfield == zeros;
    ZeroCache(large.layerCache, large.bitfield);
    assert large.layerCache == 0;

    large.SetBit(1);
    SetBitOne(0);
    large.SetField(fives);
    CombineGroups(OrField, 2, 0, FIVES, FIVES);
    assert OrField(2, FIVES) == FIVES | 2 && OrField(0, FIVES) == FIVES;
    FullCacheOfGroups(large.layerCache, FIVES | 2, FIVES);
    large.SetField(fives);
    CombineGroups(OrField, FIVES | 2, FIVES, FIVES, FIVES);
    assert OrField(FIVES | 2, FIVES) == FIVES | 2 && OrField(FIVES, FIVES) == FIVES;
    assert large.bitfield == Groups(FIVES | 2, FIVES);
    FullCacheOfGroups(large.layerCache, FIVES | 2, FIVES);
    large.SetField(aS);
    CombineGroups(OrField, FIVES | 2, FIVES, A_S, A_S);
    assert OrField(FIVES | 2, A_S) == ALL_ONES && OrField(FIVES, A_S) == ALL_ONES;
    FullCacheOfGroups(large.layerCache, ALL_ONES, ALL_ONES);

    large.ClearField(fives);
    CombineGroups(AndNotField, ALL_ONES, ALL_ONES, FIVES, FIVES);
    assert AndNotField(ALL_ONES, FIVES) == A_S;
    FullCacheOfGroups(large.layerCache, A_S, A_S);
    large.ClearField(fives);
    CombineGroups(AndNotField, A_S, A_S, FIVES, FIVES);
    assert AndNotField(A_S, FIVES) == A_S;
    large.ClearField(zeros);
    CombineGroups(AndNotField, A_S, A_S, 0, 0);
    assert AndNotField(A_S, 0) == A_S;
    assert large.bitfield == aS;
    FullCacheOfGroups(large.layerCache, A_S, A_S);
    UniformGroups(A_S);
  }
}

/**
 * The low-bit tagging codec of src/lib.rs.
 *
 * A marked pointer is one machine word. Because every value of a type `T` is
 * aligned to `align_of::<T>()`, the lowest `lower_bits` bits of a pointer to
 * it are always zero, and the lowest `n <= lower_bits` of them can carry a
 * small tag. The codec separates and joins the two halves with a mask.
 *
 * Words are 64-bit bit-vectors (`usize` on a 64-bit target), so every `&`,
 * `|`, `!`, `<<` and `>>` below is the machine operation.
 */
module Codec {

  import opened RustCore

  /** A machine word: the integer representation of a (possibly marked) pointer. */
  type Word = bv64

  /** A tag width `n`: the number of low bits given to the tag (below the word width). */
  type Width = n: bv7 | n < 64

  /** The integer representation of a `NonNull<T>`. */
  type NonNullWord = w: Word | w != 0 witness 1

  /** `align_of::<T>()`: the alignment of a type is always a non-zero power of two. */
  type Align = a: Word | a != 0 && a & (a - 1) == 0 witness 1

  /** 2 to the power `n`, as a mathematical integer. */
  function Pow2(n: nat): nat
  {
    if n == 0 then 1 else 2 * Pow2(n - 1)
  }

  /** The mask of the `n` lowest bits of a word. */
  function Mask(n: Width): Word
  {
    ((1 as bv64) << n) - 1
  }

  /** The `n` lowest bits of `x` are all zero. */
  predicate LowBitsClear(x: Word, n: Width)
  {
    x & Mask(n) == 0
  }

  /** Bit number `i` of `x` is set. */
  predicate BitSet(x: Word, i: Width)
  {
    (x >> i) & 1 == 1
  }

  /** `p` is a multiple of the alignment `align`. */
  predicate Aligned(align: Align, p: Word)
  {
    p & (align - 1) == 0
  }

  /*
   * The value of the mask as a number: `(1 << n) - 1 == 2^n - 1`.
   */

  lemma ShiftStep(n: Width)
    requires n > 0
    ensures (1 as bv64) << n == ((1 as bv64) << (n - 1)) << 1
  {
  }

  lemma ShiftBelowTopBit(n: Width)
    requires n > 0
    ensures ((1 as bv64) << (n - 1)) < 0x8000_0000_0000_0000
  {
  }

  lemma DoubleBelowTopBit(x: Word)
    requires x < 0x8000_0000_0000_0000
    ensures (x << 1) as int == 2 * x as int
  {
  }

  /** Shifting a one left by `n` places is the number 2^n. */
  lemma {:induction false} ShiftOneIsPow2(n: Width)
    ensures ((1 as bv64) << n) as int == Pow2(n as nat)
    decreases n as nat
  {
    if n > 0 {
      ShiftOneIsPow2(n - 1);
      ShiftStep(n);
      ShiftBelowTopBit(n);
      DoubleBelowTopBit((1 as bv64) << (n - 1));
      assert (n - 1) as nat == n as nat - 1;
    }
  }

  /** The mask of `n` bits is the number 2^n - 1. */
  lemma MaskIsPow2Minus1(n: Width)
    ensures Mask(n) as int == Pow2(n as nat) - 1
  {
    ShiftOneIsPow2(n);
    var s := (1 as bv64) << n;
    assert s != 0;
    assert (s - 1) as int == s as int - 1;
  }

  /** A wider mask contains a narrower one. */
  lemma MaskMonotone(n: Width, k: Width)
    requires n <= k
    ensures Mask(n) & Mask(k) == Mask(n)
  {
  }

  /*
   * lower_bits: the number of trailing zeros of the alignment.
   */

  lemma TrailingZerosStep(x: Word, i: Width)
    requires LowBitsClear(x, i)
    requires !BitSet(x, i)
    requires i < 63
    ensures LowBitsClear(x, i + 1)
  {
    assert Mask(i + 1) == Mask(i) | ((1 as bv64) << i);
  }

  lemma TopBitOfNonZero(x: Word)
    requires x != 0
    requires LowBitsClear(x, 63)
    ensures BitSet(x, 63)
  {
  }

  /**
   * The number of trailing zeros of a non-zero word, counting upwards from
   * bit `i` below which all bits are known to be zero: the result is the
   * position of the lowest set bit.
   */
  function TrailingZerosFrom(x: Word, i: Width): (r: Width)
    requires x != 0
    requires LowBitsClear(x, i)
    decreases 63 - i
    ensures LowBitsClear(x, r)
    ensures BitSet(x, r)
  {
    if i == 63 then
      TopBitOfNonZero(x);
      63
    else if BitSet(x, i) then
      i
    else
      TrailingZerosStep(x, i);
      TrailingZerosFrom(x, i + 1)
  }

  /** `usize::trailing_zeros` on a non-zero word. */
  function TrailingZeros(x: NonNullWord): (r: Width)
    ensures LowBitsClear(x, r)
    ensures BitSet(x, r)
  {
    TrailingZerosFrom(x, 0)
  }

  lemma PowerOfTwoIsShift(a: Align, k: Width)
    requires LowBitsClear(a, k)
    requires BitSet(a, k)
    ensures a == (1 as bv64) << k
  {
  }

  /**
   * `lower_bits::<T>()`: the number of low pointer bits that alignment keeps
   * at zero. It is the base-2 logarithm of the alignment.
   */
  function LowerBits(align: Align): (r: Width)
    ensures align == (1 as bv64) << r
    ensures align - 1 == Mask(r)
  {
    var k := TrailingZeros(align);
    PowerOfTwoIsShift(align, k);
    k
  }

  /**
   * `mark_mask::<T>(n)`: the mask of the `n` tag bits. The unsigned
   * subtraction `lower_bits - n` makes the constant fail to evaluate when the
   * type's alignment leaves fewer than `n` free bits; that failure is `None`.
   */
  function MarkMask(align: Align, n: Word): (r: Option<Word>)
    ensures r.Some? <==> n <= LowerBits(align) as Word
    ensures r.Some? ==> r.value == Mask(n as Width)
  {
    if n <= LowerBits(align) as Word then
      Some(Mask(n as Width))
    else
      None
  }

  /**
   * The alignment check in arithmetic form: `mark_mask::<T>(n)` is defined
   * exactly when the alignment itself has its `n` low bits clear, that is,
   * when 2^n divides `align_of::<T>()`.
   */
  lemma AlignmentAdmits(align: Align, n: Width)
    ensures LowBitsClear(align, n) <==> MarkMask(align, n as Word).Some?
  {
    var k := LowerBits(align);
    if n as Word <= k as Word {
      MaskMonotone(n, k);
      assert align & Mask(k) == 0;
    } else {
      BitInsideWiderMask(align, k, n);
    }
  }

  lemma BitInsideWiderMask(x: Word, k: Width, n: Width)
    ensures k < n && BitSet(x, k) ==> x & Mask(n) != 0
  {
  }

  /**
   * An aligned pointer has no tag bits, for every tag width the alignment
   * admits: the `debug_assert` of `compose` holds for pointers to `T`.
   */
  lemma AlignedPointerHasNoTag(align: Align, n: Width, p: Word)
    requires MarkMask(align, n as Word).Some?
    requires Aligned(align, p)
    ensures LowBitsClear(p, n)
  {
    var k := LowerBits(align);
    MaskMonotone(n, k);
  }

  /*
   * Bitwise identities over the mask of `n` bits. Each holds bit by bit and
   * is stated as an implication, so that a caller gets it without having to
   * establish a precondition first.
   */

  lemma JoinKeepsOutside(n: Width, p: Word, t: Word)
    ensures p & Mask(n) == 0 ==> (p | (Mask(n) & t)) & !Mask(n) == p
  {
  }

  lemma JoinKeepsInside(n: Width, p: Word, t: Word)
    ensures p & Mask(n) == 0 ==> (p | (Mask(n) & t)) & Mask(n) == t & Mask(n)
  {
  }

  /*
   * The codec.
   */

  /** `decompose_tag`: the bits of `w` under the mask. */
  function DecomposeTag(n: Width, w: Word): Word
  {
    w & Mask(n)
  }

  /** `decompose_ptr`: `w` with the bits under the mask cleared. */
  function DecomposePtr(n: Width, w: Word): Word
  {
    w & !Mask(n)
  }

  /**
   * `compose`: the pointer `p` marked with the low `n` bits of `tag`; excess
   * tag bits are dropped. `p` must have no tag bits (the `debug_assert`).
   */
  function Compose(n: Width, p: Word, tag: Word): (r: Word)
    requires LowBitsClear(p, n)
    ensures DecomposePtr(n, r) == p
    ensures DecomposeTag(n, r) == tag & Mask(n)
  {
    JoinKeepsOutside(n, p, tag);
    JoinKeepsInside(n, p, tag);
    p | (Mask(n) & tag)
  }

  /**
   * `decompose`: the pointer and tag halves of `w`, which compose back to
   * exactly `w`.
   */
  function Decompose(n: Width, w: Word): (r: (Word, Word))
    ensures LowBitsClear(r.0, n)
    ensures r.1 & !Mask(n) == 0
    ensures Compose(n, r.0, r.1) == w
  {
    DecomposeRecomposes(n, w);
    OutsideIsUntagged(n, w);
    HalvesDisjointInMask(n, w);
    (DecomposePtr(n, w), DecomposeTag(n, w))
  }

  lemma HalvesDisjointInMask(n: Width, w: Word)
    ensures (w & Mask(n)) & !Mask(n) == 0
  {
  }

  /**
   * The contract of `decompose` leaves no choice: a tag-free pointer and a
   * tag inside the mask that compose to `w` are the two halves of `w`.
   */
  lemma DecomposeIsUnique(n: Width, w: Word, p: Word, t: Word)
    requires LowBitsClear(p, n)
    requires t & !Mask(n) == 0
    requires Compose(n, p, t) == w
    ensures (p, t) == Decompose(n, w)
  {
    OutsideClearIsInside(n, t);
  }


  lemma OutsideIsUntagged(n: Width, w: Word)
    ensures (w & !Mask(n)) & Mask(n) == 0
  {
  }

  lemma InsideIsIdempotent(n: Width, w: Word)
    ensures (w & Mask(n)) & Mask(n) == w & Mask(n)
  {
  }

  lemma SameHalvesSameWord(n: Width, x: Word, y: Word)
    ensures x & !Mask(n) == y & !Mask(n) && x & Mask(n) == y & Mask(n) ==> x == y
  {
  }

  lemma HalvesDisjoint(n: Width, w: Word)
    ensures (w & !Mask(n)) & (w & Mask(n)) == 0
  {
  }

  lemma HalvesUnion(n: Width, w: Word)
    ensures (w & !Mask(n)) | (w & Mask(n)) == w
  {
  }

  lemma InsideClearIsOutside(n: Width, w: Word)
    ensures w & Mask(n) == 0 ==> w & !Mask(n) == w
  {
  }

  lemma OutsideClearIsInside(n: Width, w: Word)
    ensures w & !Mask(n) == 0 ==> w & Mask(n) == w
  {
  }

  lemma InsideAtMostMask(n: Width, w: Word)
    ensures w & Mask(n) <= Mask(n)
  {
  }

  lemma SetInsideKeepsOutside(n: Width, a: Word, v: Word)
    ensures v & !Mask(n) == 0 ==> (a | v) & !Mask(n) == a & !Mask(n)
  {
  }

  lemma SetInsideAddsInside(n: Width, a: Word, v: Word)
    ensures v & !Mask(n) == 0 ==> (a | v) & Mask(n) == (a & Mask(n)) | v
  {
  }

  lemma SetInsideDisjoint(n: Width, a: Word, v: Word)
    ensures v & !Mask(n) == 0 && (a & Mask(n)) & v == 0 ==> a & v == 0
  {
  }

  lemma ClearInsideSubset(n: Width, a: Word, v: Word)
    ensures v & !(a & Mask(n)) == 0 ==> v & !a == 0
  {
  }

  lemma ClearInsideKeepsOutside(n: Width, a: Word, v: Word)
    ensures v & !(a & Mask(n)) == 0 ==> (a & !v) & !Mask(n) == a & !Mask(n)
  {
  }

  lemma ClearRemovesInside(n: Width, a: Word, v: Word)
    ensures (a & !v) & Mask(n) == (a & Mask(n)) & !v
  {
  }

  /*
   * The codec as seen through its two halves.
   */

  /** The pointer half has no tag bits. */
  lemma PtrHalfHasNoTag(n: Width, w: Word)
    ensures LowBitsClear(DecomposePtr(n, w), n)
  {
    OutsideIsUntagged(n, w);
  }

  /** The tag half is unchanged by the mask. */
  lemma TagHalfIsMasked(n: Width, w: Word)
    ensures DecomposeTag(n, w) & Mask(n) == DecomposeTag(n, w)
  {
    InsideIsIdempotent(n, w);
  }

  /** Two words with the same pointer half and the same tag half are equal. */
  lemma HalvesDetermineWord(n: Width, x: Word, y: Word)
    requires DecomposePtr(n, x) == DecomposePtr(n, y)
    requires DecomposeTag(n, x) == DecomposeTag(n, y)
    ensures x == y
  {
    SameHalvesSameWord(n, x, y);
  }

  /** Composing the two halves of a word gives back the word. */
  lemma DecomposeRecomposes(n: Width, w: Word)
    ensures LowBitsClear(DecomposePtr(n, w), n)
    ensures Compose(n, DecomposePtr(n, w), DecomposeTag(n, w)) == w
  {
    OutsideIsUntagged(n, w);
    InsideIsIdempotent(n, w);
    var c := Compose(n, DecomposePtr(n, w), DecomposeTag(n, w));
    SameHalvesSameWord(n, c, w);
  }

  /** The two halves of a word are disjoint. */
  lemma HalvesAreDisjoint(n: Width, w: Word)
    ensures DecomposePtr(n, w) & DecomposeTag(n, w) == 0
  {
    HalvesDisjoint(n, w);
  }

  /** Together the two halves make up the word. */
  lemma HalvesMakeWord(n: Width, w: Word)
    ensures DecomposePtr(n, w) | DecomposeTag(n, w) == w
  {
    HalvesUnion(n, w);
  }

  /** A word without tag bits is its own pointer half. */
  lemma UntaggedIsPointer(n: Width, w: Word)
    requires LowBitsClear(w, n)
    ensures DecomposePtr(n, w) == w
  {
    InsideClearIsOutside(n, w);
  }

  /** A word without tag bits has tag 0. */
  lemma UntaggedHasNoTag(n: Width, w: Word)
    requires LowBitsClear(w, n)
    ensures DecomposeTag(n, w) == 0
  {
  }

  /** A word whose pointer half is null is its own tag half. */
  lemma MarkedNullIsTag(n: Width, w: Word)
    requires DecomposePtr(n, w) == 0
    ensures DecomposeTag(n, w) == w
  {
    OutsideClearIsInside(n, w);
  }

  /** The tag half is at most the mask, 2^n - 1 (see MaskIsPow2Minus1). */
  lemma TagAtMostMask(n: Width, w: Word)
    ensures DecomposeTag(n, w) <= Mask(n)
  {
    InsideAtMostMask(n, w);
  }

  /** A tag that fits in the mask survives composition unchanged. */
  lemma FittingTagIsKept(n: Width, tag: Word)
    requires tag & !Mask(n) == 0
    ensures tag & Mask(n) == tag
  {
    OutsideClearIsInside(n, tag);
  }

  /**
   * Round trip for pointers to `T`: an aligned pointer and a tag that fits
   * in `n` bits compose to a word that decomposes to the same pair.
   */
  lemma AlignedRoundTrip(align: Align, n: Width, p: Word, tag: Word)
    requires MarkMask(align, n as Word).Some?
    requires Aligned(align, p)
    requires tag & !Mask(n) == 0
    ensures LowBitsClear(p, n)
    ensures Decompose(n, Compose(n, p, tag)) == (p, tag)
  {
    AlignedPointerHasNoTag(align, n, p);
    FittingTagIsKept(n, tag);
  }

  /*
   * Setting and clearing bits inside the tag, for `add_tag` and `sub_tag`.
   */

  /** Setting tag bits keeps the pointer half. */
  lemma SetTagBitsKeepsPtr(n: Width, a: Word, v: Word)
    requires v & !Mask(n) == 0
    ensures DecomposePtr(n, a | v) == DecomposePtr(n, a)
  {
    SetInsideKeepsOutside(n, a, v);
  }

  /** Setting tag bits adds them to the tag half. */
  lemma SetTagBitsAddsToTag(n: Width, a: Word, v: Word)
    requires v & !Mask(n) == 0
    ensures DecomposeTag(n, a | v) == DecomposeTag(n, a) | v
  {
    SetInsideAddsInside(n, a, v);
  }

  /** Tag bits that are clear in the tag half are clear in the word. */
  lemma ClearTagBitsAreClear(n: Width, a: Word, v: Word)
    requires v & !Mask(n) == 0
    requires DecomposeTag(n, a) & v == 0
    ensures a & v == 0
  {
    SetInsideDisjoint(n, a, v);
  }

  /** Bits that are set in the tag half are set in the word. */
  lemma SetTagBitsAreSet(n: Width, a: Word, v: Word)
    requires v & !DecomposeTag(n, a) == 0
    ensures v & !a == 0
  {
    ClearInsideSubset(n, a, v);
  }

  /** Clearing bits that are set in the tag half keeps the pointer half. */
  lemma ClearTagBitsKeepsPtr(n: Width, a: Word, v: Word)
    requires v & !DecomposeTag(n, a) == 0
    ensures DecomposePtr(n, a & !v) == DecomposePtr(n, a)
  {
    ClearInsideKeepsOutside(n, a, v);
  }

  /** Clearing bits removes them from the tag half. */
  lemma ClearTagBitsRemovesFromTag(n: Width, a: Word, v: Word)
    ensures DecomposeTag(n, a & !v) == DecomposeTag(n, a) & !v
  {
    ClearRemovesInside(n, a, v);
  }

  /**
   * Bits that were clear in `t`, once set, are all set; clearing them again
   * restores `t`.
   */
  lemma SetThenClearRestores(t: Word, v: Word)
    ensures t & v == 0 ==> v & !(t | v) == 0 && (t | v) & !v == t
  {
  }

  /*
   * Word arithmetic.
   */

  /** `wrapping_add` on words: addition modulo 2^64. */
  function WrappingAdd(a: Word, v: Word): Word
  {
    a + v
  }

  /** `wrapping_sub` on words: subtraction modulo 2^64. */
  function WrappingSub(a: Word, v: Word): Word
  {
    a - v
  }

  lemma DisjointBitsFit(a: Word, v: Word)
    ensures a & v == 0 ==> a <= 0xFFFF_FFFF_FFFF_FFFF - v
  {
  }

  lemma DisjointBitsAdd(a: Word, v: Word)
    ensures a & v == 0 ==> a + v == a | v
  {
  }

  lemma SubsetBitsFit(a: Word, v: Word)
    ensures v & !a == 0 ==> v <= a
  {
  }

  lemma RestIsDisjoint(a: Word, v: Word)
    ensures (a & !v) & v == 0
  {
  }

  lemma SubsetRestores(a: Word, v: Word)
    ensures v & !a == 0 ==> (a & !v) | v == a
  {
  }

  lemma SubtractUndoesAdd(x: Word, v: Word)
    ensures (x + v) - v == x
  {
  }

  /*
   * The two wrapping operations undo each other. Each proof names the
   * unfolded sum or difference so that the solver meets the identity as
   * written out rather than bit by bit.
   */

  /** `wrapping_sub` undoes `wrapping_add` for every word and every value. */
  lemma WrappingSubUndoesAdd(a: Word, v: Word)
    ensures WrappingSub(WrappingAdd(a, v), v) == a
  {
    assert WrappingAdd(a, v) == a + v;
    assert WrappingSub(a + v, v) == a;
  }

  /** `wrapping_add` undoes `wrapping_sub` for every word and every value. */
  lemma WrappingAddUndoesSub(a: Word, v: Word)
    ensures WrappingAdd(WrappingSub(a, v), v) == a
  {
    assert WrappingSub(a, v) == a - v;
    assert WrappingAdd(a - v, v) == a;
  }

  /**
   * Adding a word that shares no bit with `a` cannot overflow and produces
   * no carry: the sum is the union of the bits.
   */
  lemma CarryFreeSum(a: Word, v: Word)
    requires a & v == 0
    ensures a <= 0xFFFF_FFFF_FFFF_FFFF - v
    ensures WrappingAdd(a, v) == a | v
  {
    DisjointBitsFit(a, v);
    DisjointBitsAdd(a, v);
  }

  /**
   * Subtracting a word whose bits all lie in `a` cannot underflow and
   * borrows nothing: the difference is `a` with those bits cleared.
   */
  lemma BorrowFreeDifference(a: Word, v: Word)
    requires v & !a == 0
    ensures v <= a
    ensures WrappingSub(a, v) == a & !v
  {
    SubsetBitsFit(a, v);
    RestIsDisjoint(a, v);
    DisjointBitsAdd(a & !v, v);
    SubsetRestores(a, v);
    SubtractUndoesAdd(a & !v, v);
  }
}

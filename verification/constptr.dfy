/**
 * The const-generic `MarkedPtr<T, N>` of src/imp/ptr.rs: a nullable pointer
 * word whose low `N` bits hold a tag. Every operation takes the marked
 * pointer by value and returns a new one built with the shared codec.
 */
module ConstPtr {

  import opened RustCore
  import opened Codec

  /** `MarkedPtr<T, N>` (const-generic): a pointer word that may carry a tag. */
  datatype MarkedPtr = MarkedPtr(inner: Word)

  /** The largest word, `usize::MAX`. */
  const WordMax: Word := 0xFFFF_FFFF_FFFF_FFFF

  /**
   * The word `compose` builds once its alignment assertion has passed:
   * `ptr` marked with the low `n` bits of `tag`; excess tag bits are
   * silently dropped. `ptr` must have no tag bits.
   */
  function Join(n: Width, ptr: Word, tag: Word): (r: MarkedPtr)
    requires LowBitsClear(ptr, n)
    ensures DecomposePtr(n, r) == ptr
    ensures DecomposeTag(n, r) == tag & Mask(n)
  {
    MarkedPtr(Codec.Compose(n, ptr, tag))
  }

  /**
   * `compose`: first asserts that the alignment `align` of `T` leaves room
   * for `n` tag bits, that is, that `align` has its `n` low bits clear, and
   * panics otherwise (see ComposeChecksAlignment); then joins `ptr` and
   * `tag`.
   */
  function Compose(align: Align, n: Width, ptr: Word, tag: Word): (r: Outcome<MarkedPtr>)
    requires LowBitsClear(align, n) ==> LowBitsClear(ptr, n)
    ensures r.Panics? <==> !LowBitsClear(align, n)
    ensures r.Returns? ==> DecomposePtr(n, r.value) == ptr && DecomposeTag(n, r.value) == tag & Mask(n)
  {
    if !LowBitsClear(align, n) then Panics else Returns(Join(n, ptr, tag))
  }

  /**
   * The assertion of `compose` is the alignment check of `mark_mask`: it
   * fails exactly when `T` keeps fewer than `n` low pointer bits at zero.
   */
  lemma ComposeChecksAlignment(align: Align, n: Width, ptr: Word, tag: Word)
    requires LowBitsClear(align, n) ==> LowBitsClear(ptr, n)
    ensures Compose(align, n, ptr, tag).Panics? <==> MarkMask(align, n as Word).None?
    ensures Compose(align, n, ptr, tag).Panics? <==> LowerBits(align) < n
  {
    AlignmentAdmits(align, n);
  }

  /** `is_null`: the pointer half is null, whatever the tag. */
  function IsNull(n: Width, m: MarkedPtr): (r: bool)
    ensures r <==> DecomposeTag(n, m) == m.inner
  {
    DecomposePtr(n, m) == 0
  }

  /** `clear_tag`: the same pointer with tag 0. */
  function ClearTag(n: Width, m: MarkedPtr): (r: MarkedPtr)
    ensures DecomposePtr(n, r) == DecomposePtr(n, m)
    ensures DecomposeTag(n, r) == 0
  {
    MarkedPtr(DecomposePtr(n, m))
  }

  /**
   * `split_tag`: the pointer with its tag cleared, and the tag; the two
   * compose back to `m`.
   */
  function SplitTag(n: Width, m: MarkedPtr): (r: (MarkedPtr, Word))
    ensures r.0 == ClearTag(n, m)
    ensures r.1 == DecomposeTag(n, m)
    ensures Join(n, r.0.inner, r.1) == m
  {
    var (ptr, tag) := Decompose(n, m);
    (MarkedPtr(ptr), tag)
  }

  /**
   * `set_tag`: `compose` of the pointer half with the new tag, so it panics
   * on the same alignment check; otherwise the same pointer with the tag
   * replaced by the low `n` bits of `tag`.
   */
  function SetTag(align: Align, n: Width, m: MarkedPtr, tag: Word): (r: Outcome<MarkedPtr>)
    ensures r.Panics? <==> !LowBitsClear(align, n)
    ensures r.Returns? ==> DecomposePtr(n, r.value) == DecomposePtr(n, m)
    ensures r.Returns? ==> DecomposeTag(n, r.value) == tag & Mask(n)
  {
    OutsideIsUntagged(n, m.inner);
    Compose(align, n, DecomposePtr(n, m), tag)
  }

  /**
   * `update_tag`: `compose` of the pointer half with the tag `func` computes
   * from the current one, panicking on the alignment check like `compose`.
   */
  function UpdateTag(align: Align, n: Width, m: MarkedPtr, func: Word -> Word): (r: Outcome<MarkedPtr>)
    ensures r.Panics? <==> !LowBitsClear(align, n)
    ensures r.Returns? ==> DecomposePtr(n, r.value) == DecomposePtr(n, m)
    ensures r.Returns? ==> DecomposeTag(n, r.value) == func(DecomposeTag(n, m)) & Mask(n)
  {
    var (ptr, tag) := Decompose(n, m);
    Compose(align, n, ptr, func(tag))
  }

  /**
   * `add_tag`: plain `+` on the whole word, with no regard for the tag bits;
   * it panics exactly when the sum exceeds `usize::MAX`.
   */
  function AddTag(m: MarkedPtr, value: Word): (r: Outcome<MarkedPtr>)
    ensures r.Panics? <==> m.inner > WordMax - value
  {
    if m.inner > WordMax - value then Panics else Returns(MarkedPtr(WrappingAdd(m.inner, value)))
  }

  /**
   * `sub_tag`: plain `-` on the whole word, with no regard for the tag bits;
   * it panics exactly when `value` exceeds the word.
   */
  function SubTag(m: MarkedPtr, value: Word): (r: Outcome<MarkedPtr>)
    ensures r.Panics? <==> value > m.inner
  {
    if value > m.inner then Panics else Returns(MarkedPtr(WrappingSub(m.inner, value)))
  }

  /** `decompose`: the pointer and the tag, which compose back to `m`. */
  function Decompose(n: Width, m: MarkedPtr): (r: (Word, Word))
    ensures r == (DecomposePtr(n, m), DecomposeTag(n, m))
    ensures LowBitsClear(r.0, n)
    ensures Codec.Compose(n, r.0, r.1) == m.inner
  {
    Codec.Decompose(n, m.inner)
  }

  /** `decompose_ptr`: the word with the tag bits cleared (see DecomposeSplits). */
  function DecomposePtr(n: Width, m: MarkedPtr): Word
  {
    Codec.DecomposePtr(n, m.inner)
  }

  /** `decompose_tag`: the tag bits alone (see DecomposeSplits). */
  function DecomposeTag(n: Width, m: MarkedPtr): Word
  {
    Codec.DecomposeTag(n, m.inner)
  }

  /**
   * The pointer half has no tag bits, the tag half has nothing but tag bits,
   * and together they are the whole word.
   */
  lemma DecomposeSplits(n: Width, m: MarkedPtr)
    ensures LowBitsClear(DecomposePtr(n, m), n)
    ensures DecomposeTag(n, m) & !Mask(n) == 0
    ensures DecomposePtr(n, m) | DecomposeTag(n, m) == m.inner
  {
    PtrHalfHasNoTag(n, m.inner);
    InsideIsIdempotent(n, m.inner);
    HalvesMakeWord(n, m.inner);
  }

  /** A null pointer stays null whatever tag it is composed with. */
  lemma MarkedNullIsNull(n: Width, tag: Word)
    ensures IsNull(n, Join(n, 0, tag))
  {
  }

  /** A marked pointer is null exactly when its word is at most the tag mask. */
  lemma IsNullIffAtMostMask(n: Width, m: MarkedPtr)
    ensures IsNull(n, m) <==> m.inner <= Mask(n)
  {
  }

  /** Only the low `n` bits of a new tag matter to `set_tag`. */
  lemma SetTagTruncates(align: Align, n: Width, m: MarkedPtr, tag: Word)
    ensures SetTag(align, n, m, tag) == SetTag(align, n, m, tag & Mask(n))
  {
    InsideIsIdempotent(n, tag);
  }

  /** Adding bits that are all clear in the word cannot overflow; it sets them. */
  lemma AddTagSetsClearBits(m: MarkedPtr, value: Word)
    requires m.inner & value == 0
    ensures AddTag(m, value) == Returns(MarkedPtr(m.inner | value))
  {
    AddTagFits(m, value);
    AddTagUnion(m, value);
  }

  lemma AddTagUnion(m: MarkedPtr, value: Word)
    requires m.inner & value == 0
    requires AddTag(m, value).Returns?
    ensures AddTag(m, value) == Returns(MarkedPtr(m.inner | value))
  {
    CarryFreeSum(m.inner, value);
  }

  lemma AddTagFits(m: MarkedPtr, value: Word)
    requires m.inner & value == 0
    ensures AddTag(m, value).Returns?
  {
  }

  /** Subtracting bits that are all set in the word cannot underflow; it clears them. */
  lemma SubTagClearsSetBits(m: MarkedPtr, value: Word)
    requires value & !m.inner == 0
    ensures SubTag(m, value) == Returns(MarkedPtr(m.inner & !value))
  {
    SubTagFits(m, value);
    SubTagDifference(m, value);
  }

  lemma SubTagDifference(m: MarkedPtr, value: Word)
    requires value & !m.inner == 0
    requires SubTag(m, value).Returns?
    ensures SubTag(m, value) == Returns(MarkedPtr(m.inner & !value))
  {
    BorrowFreeDifference(m.inner, value);
  }

  lemma SubTagFits(m: MarkedPtr, value: Word)
    requires value & !m.inner == 0
    ensures SubTag(m, value).Returns?
  {
    BorrowFreeDifference(m.inner, value);
  }

  /*
   * Bits of the tag, seen through the marked pointer.
   */

  /** Bits that fit in the tag and are clear in it are clear in the whole word. */
  lemma FreeTagBitsAreFree(n: Width, m: MarkedPtr, value: Word)
    requires value & !Mask(n) == 0
    requires DecomposeTag(n, m) & value == 0
    ensures m.inner & value == 0
  {
    ClearTagBitsAreClear(n, m.inner, value);
  }

  /** Bits that are set in the tag are set in the whole word. */
  lemma UsedTagBitsAreUsed(n: Width, m: MarkedPtr, value: Word)
    requires value & !DecomposeTag(n, m) == 0
    ensures value & !m.inner == 0
  {
    SetTagBitsAreSet(n, m.inner, value);
  }

  /** Setting bits that fit in the tag leaves the pointer alone. */
  lemma MarkingKeepsPtr(n: Width, m: MarkedPtr, value: Word)
    requires value & !Mask(n) == 0
    ensures DecomposePtr(n, MarkedPtr(m.inner | value)) == DecomposePtr(n, m)
  {
    SetTagBitsKeepsPtr(n, m.inner, value);
  }

  /** Setting bits that fit in the tag adds them to the tag. */
  lemma MarkingSetsTag(n: Width, m: MarkedPtr, value: Word)
    requires value & !Mask(n) == 0
    ensures DecomposeTag(n, MarkedPtr(m.inner | value)) == DecomposeTag(n, m) | value
  {
    SetTagBitsAddsToTag(n, m.inner, value);
  }

  /** Clearing bits that are set in the tag leaves the pointer alone. */
  lemma UnmarkingKeepsPtr(n: Width, m: MarkedPtr, value: Word)
    requires value & !DecomposeTag(n, m) == 0
    ensures DecomposePtr(n, MarkedPtr(m.inner & !value)) == DecomposePtr(n, m)
  {
    ClearTagBitsKeepsPtr(n, m.inner, value);
  }

  /** Clearing bits removes them from the tag. */
  lemma UnmarkingClearsTag(n: Width, m: MarkedPtr, value: Word)
    ensures DecomposeTag(n, MarkedPtr(m.inner & !value)) == DecomposeTag(n, m) & !value
  {
    ClearTagBitsRemovesFromTag(n, m.inner, value);
  }

  /** Subtracting bits that were just set in a word restores the word. */
  lemma SubTagUnmarks(m: MarkedPtr, value: Word)
    requires m.inner & value == 0
    ensures SubTag(MarkedPtr(m.inner | value), value) == Returns(m)
  {
    SetThenClearRestores(m.inner, value);
    SubTagClearsSetBits(MarkedPtr(m.inner | value), value);
  }

  /**
   * Adding bits that fit in the tag and are clear in it cannot panic; it
   * keeps the pointer and sets those bits of the tag.
   */
  lemma AddTagWithinTag(n: Width, m: MarkedPtr, value: Word)
    requires value & !Mask(n) == 0
    requires DecomposeTag(n, m) & value == 0
    ensures AddTag(m, value).Returns?
    ensures DecomposePtr(n, AddTag(m, value).value) == DecomposePtr(n, m)
    ensures DecomposeTag(n, AddTag(m, value).value) == DecomposeTag(n, m) | value
  {
    FreeTagBitsAreFree(n, m, value);
    AddTagSetsClearBits(m, value);
    MarkingKeepsPtr(n, m, value);
    MarkingSetsTag(n, m, value);
  }

  /**
   * Subtracting bits that are set in the tag cannot panic; it keeps the
   * pointer and clears those bits of the tag.
   */
  lemma SubTagWithinTag(n: Width, m: MarkedPtr, value: Word)
    requires value & !DecomposeTag(n, m) == 0
    ensures SubTag(m, value).Returns?
    ensures DecomposePtr(n, SubTag(m, value).value) == DecomposePtr(n, m)
    ensures DecomposeTag(n, SubTag(m, value).value) == DecomposeTag(n, m) & !value
  {
    UsedTagBitsAreUsed(n, m, value);
    SubTagClearsSetBits(m, value);
    UnmarkingKeepsPtr(n, m, value);
    UnmarkingClearsTag(n, m, value);
  }

  /** Within the tag, `sub_tag` undoes `add_tag`. */
  lemma AddSubTagInverse(n: Width, m: MarkedPtr, value: Word)
    requires value & !Mask(n) == 0
    requires DecomposeTag(n, m) & value == 0
    ensures AddTag(m, value).Returns?
    ensures SubTag(AddTag(m, value).value, value) == Returns(m)
  {
    FreeTagBitsAreFree(n, m, value);
    AddTagSetsClearBits(m, value);
    SubTagUnmarks(m, value);
  }

  /**
   * The alignment check of `compose`: an `i32` (alignment 4) leaves two tag
   * bits, so composing a null with three tag bits panics, while with two tag
   * bits it gives the marked null holding the tag.
   */
  lemma AlignmentCheckForI32()
    ensures Compose(4, 3, 0, 7).Panics?
    ensures Compose(4, 2, 0, 3) == Returns(MarkedPtr(3))
  {
    var k := LowerBits(4);
    assert k == 2;
    assert Mask(2) == 3;
  }
}

/**
 * The const-generic `MarkedNonNull<T, N>` of src/imp/non_null.rs: a non-null
 * pointer word whose low `N` bits hold a tag, and whose pointer half is
 * non-null as well (a marked null such as `0b01` is not admitted by the safe
 * constructors). The nullable counterpart is ConstPtr.MarkedPtr.
 */
module NonNullPtr {

  import opened RustCore
  import opened Codec
  import ConstPtr

  /** `MarkedNonNull<T, N>`: a non-null pointer word, tag included. */
  datatype MarkedNonNull = MarkedNonNull(inner: NonNullWord)

  /**
   * `Null`: the error of a failed conversion, carrying one word. The type is
   * declared in a file that is not part of this model.
   */
  datatype Null = Null(value: Word)

  /**
   * The invariant the safe constructors establish and the unsafe ones demand
   * of their callers: the pointer half is not null.
   */
  predicate Valid(n: Width, m: MarkedNonNull)
  {
    Codec.DecomposePtr(n, m.inner) != 0
  }

  /*
   * Constructors and conversions.
   */

  /** `from_usize` (unsafe): the non-null word as is, tag included. */
  function FromUsize(val: NonNullWord): MarkedNonNull
  {
    MarkedNonNull(val)
  }

  /** `new_unchecked` (unsafe): the word of a marked pointer the caller knows to be non-null. */
  function NewUnchecked(m: ConstPtr.MarkedPtr): MarkedNonNull
    requires m.inner != 0
  {
    MarkedNonNull(m.inner)
  }

  /** `into_raw`: the non-null word, tag included. */
  function IntoRaw(m: MarkedNonNull): NonNullWord
  {
    m.inner
  }

  /** `into_usize`: the word with its tag, from which `from_usize` rebuilds `m`. */
  function IntoUsize(m: MarkedNonNull): (r: Word)
    ensures r != 0 && FromUsize(r) == m
  {
    m.inner
  }

  /** `into_marked_ptr`: the same word as a nullable marked pointer. */
  function IntoMarkedPtr(m: MarkedNonNull): (r: ConstPtr.MarkedPtr)
    ensures r.inner == IntoUsize(m) && r.inner != 0
  {
    ConstPtr.MarkedPtr(m.inner)
  }

  /** A non-null pointer and the nullable one it converts to have the same halves. */
  lemma MarkedPtrHalves(n: Width, m: MarkedNonNull)
    ensures ConstPtr.DecomposePtr(n, IntoMarkedPtr(m)) == DecomposePtr(n, m)
    ensures ConstPtr.DecomposeTag(n, IntoMarkedPtr(m)) == DecomposeTag(n, m)
  {
  }

  /** `decompose_ptr`: the word with the tag bits cleared. */
  function DecomposePtr(n: Width, m: MarkedNonNull): Word
  {
    Codec.DecomposePtr(n, m.inner)
  }

  /** `decompose_tag`: the tag bits alone. */
  function DecomposeTag(n: Width, m: MarkedNonNull): Word
  {
    Codec.DecomposeTag(n, m.inner)
  }

  /** `decompose_non_null`: the pointer half, non-null by the invariant. */
  function DecomposeNonNull(n: Width, m: MarkedNonNull): (r: NonNullWord)
    requires Valid(n, m)
    ensures r == DecomposePtr(n, m)
    ensures LowBitsClear(r, n)
  {
    PtrHalfHasNoTag(n, m.inner);
    DecomposePtr(n, m)
  }

  /**
   * `compose_unchecked` (unsafe): `new_unchecked(MarkedPtr::compose(ptr, tag))`.
   * The nullable `compose` asserts that `ptr` has no tag bits; given that,
   * the pointer half is `ptr` itself, so the result is valid.
   */
  function ComposeUnchecked(n: Width, ptr: NonNullWord, tag: Word): (r: MarkedNonNull)
    requires LowBitsClear(ptr, n)
    ensures Valid(n, r)
    ensures DecomposePtr(n, r) == ptr
    ensures DecomposeTag(n, r) == tag & Mask(n)
  {
    var w := Codec.Compose(n, ptr, tag);
    NullHasNullPointer(n);
    assert w != 0;
    MarkedNonNull(w)
  }

  /** `decompose`: the non-null pointer half and the tag, which compose back to `m`. */
  function Decompose(n: Width, m: MarkedNonNull): (r: (NonNullWord, Word))
    requires Valid(n, m)
    ensures r.0 == DecomposePtr(n, m) && r.1 == DecomposeTag(n, m)
    ensures LowBitsClear(r.0, n) && ComposeUnchecked(n, r.0, r.1) == m
  {
    DecomposeRecomposes(n, m.inner);
    (DecomposeNonNull(n, m), DecomposeTag(n, m))
  }

  /**
   * `TryFrom<*mut T>` (and `TryFrom<*const T>`): fails exactly for a null
   * pointer half, returning the word, which is then its own tag; otherwise
   * keeps the word.
   */
  function TryFromRaw(n: Width, ptr: Word): (r: Result<MarkedNonNull, Null>)
    ensures r.Err? <==> Codec.DecomposePtr(n, ptr) == 0
    ensures r.Err? ==> r.error == Null(ptr) && Codec.DecomposeTag(n, ptr) == ptr
    ensures r.Ok? ==> r.value.inner == ptr && Valid(n, r.value)
  {
    if Codec.DecomposePtr(n, ptr) == 0 then
      MarkedNullIsTag(n, ptr);
      Err(Null(ptr))
    else
      Ok(MarkedNonNull(ptr))
  }

  /** `TryFrom<MarkedPtr<T, N>>`: `try_from(ptr.into_raw())`. */
  function TryFromMarkedPtr(n: Width, m: ConstPtr.MarkedPtr): Result<MarkedNonNull, Null>
  {
    TryFromRaw(n, m.inner)
  }

  /** `TryFrom<NonNull<T>>`: `try_from(ptr.as_ptr())`. */
  function TryFromNonNull(n: Width, ptr: NonNullWord): Result<MarkedNonNull, Null>
  {
    TryFromRaw(n, ptr)
  }

  /**
   * `new`: `try_from(marked_ptr)`; fails exactly for the marked pointers that
   * `is_null` reports as null, returning their tag.
   */
  function New(n: Width, m: ConstPtr.MarkedPtr): (r: Result<MarkedNonNull, Null>)
    ensures r.Err? <==> ConstPtr.IsNull(n, m)
    ensures r.Err? ==> r.error == Null(ConstPtr.DecomposeTag(n, m))
    ensures r.Ok? ==> r.value.inner == m.inner && Valid(n, r.value)
  {
    TryFromMarkedPtr(n, m)
  }

  /**
   * `dangling`: `from_usize(max(align_of::<T>(), TAG_MASK + 1))`. `TAG_MASK`
   * only exists when the alignment leaves `n` free bits; then the maximum is
   * the alignment itself, a valid pointer with tag 0.
   */
  function Dangling(align: Align, n: Width): (r: MarkedNonNull)
    requires MarkMask(align, n as Word).Some?
    ensures r.inner == align
    ensures Valid(n, r) && DecomposeTag(n, r) == 0
  {
    var tagMask := MarkMask(align, n as Word).value;
    DanglingIsAlignment(align, n);
    MarkedNonNull(if align >= tagMask + 1 then align else tagMask + 1)
  }

  /*
   * Composition.
   */

  /**
   * `try_compose` as the documentation describes it: it fails exactly when
   * `ptr` has a null pointer half (it would read as a marked null), returning
   * the tag of `ptr`; a `ptr` with tag bits and a non-null pointer half trips
   * the alignment assertion of the nullable `compose`; every other `ptr` is
   * composed with `tag`.
   */
  function TryCompose(n: Width, ptr: NonNullWord, tag: Word): (r: Outcome<Result<MarkedNonNull, Null>>)
    ensures r.Returns? && r.value.Err? <==> Codec.DecomposePtr(n, ptr) == 0
    ensures r.Returns? && r.value.Err? ==> r.value.error == Null(Codec.DecomposeTag(n, ptr))
    ensures r.Panics? <==> Codec.DecomposePtr(n, ptr) != 0 && !LowBitsClear(ptr, n)
    ensures r.Returns? && r.value.Ok? ==>
      Valid(n, r.value.value) && DecomposePtr(n, r.value.value) == ptr && DecomposeTag(n, r.value.value) == tag & Mask(n)
  {
    if Codec.DecomposePtr(n, ptr) == 0 then
      Returns(Err(Null(Codec.DecomposeTag(n, ptr))))
    else if !LowBitsClear(ptr, n) then
      Panics
    else
      Returns(Ok(ComposeUnchecked(n, ptr, tag)))
  }

  /**
   * `try_compose` as written: the two arms of the match on the pointer half
   * are swapped. A null pointer half goes to `compose_unchecked`, whose
   * alignment assertion then fails (a non-null word with a null pointer half
   * has tag bits); every other pointer is refused, its whole word returned.
   */
  function TryComposeAsWritten(n: Width, ptr: NonNullWord, tag: Word): (r: Outcome<Result<MarkedNonNull, Null>>)
    ensures r.Panics? <==> Codec.DecomposePtr(n, ptr) == 0
    ensures r.Returns? ==> r.value == Err(Null(ptr))
  {
    if Codec.DecomposePtr(n, ptr) == 0 then Panics else Returns(Err(Null(ptr)))
  }

  /**
   * `try_compose` as written, in a release build: the `debug_assert_eq!`
   * of the codec's `compose`, which `compose_unchecked` reaches, is
   * compiled out, so a null pointer half is joined
   * with the tag and returned in `Ok`, a marked null that breaks the
   * invariant of the type; every other pointer is refused as above.
   */
  function TryComposeAsWrittenRelease(n: Width, ptr: NonNullWord, tag: Word): (r: Result<MarkedNonNull, Null>)
    ensures r.Ok? <==> Codec.DecomposePtr(n, ptr) == 0
    ensures r.Ok? ==> !Valid(n, r.value)
    ensures r.Err? ==> r.error == Null(ptr)
  {
    if Codec.DecomposePtr(n, ptr) == 0 then
      JoinOfNonNull(n, ptr, tag);
      Ok(MarkedNonNull(ptr | (Mask(n) & tag)))
    else
      Err(Null(ptr))
  }

  lemma JoinOfNonNull(n: Width, p: NonNullWord, t: Word)
    ensures p | (Mask(n) & t) != 0
    ensures p & !Mask(n) == 0 ==> (p | (Mask(n) & t)) & !Mask(n) == 0
  {
  }

  /**
   * `compose` as written: `expect` over the as-written `try_compose`, which
   * never returns `Ok` in a debug build, so `compose` panics on every input.
   */
  function ComposeAsWritten(n: Width, ptr: NonNullWord, tag: Word): (r: Outcome<MarkedNonNull>)
    ensures r.Panics?
  {
    match TryComposeAsWritten(n, ptr, tag)
    case Returns(Ok(m)) => Returns(m)
    case _ => Panics
  }

  /**
   * `compose`: `try_compose(ptr, tag).expect(..)`. It panics exactly when
   * `try_compose` does not succeed, which is exactly when `ptr` has tag bits.
   */
  function Compose(n: Width, ptr: NonNullWord, tag: Word): (r: Outcome<MarkedNonNull>)
    ensures r.Panics? <==> !(TryCompose(n, ptr, tag).Returns? && TryCompose(n, ptr, tag).value.Ok?)
    ensures r.Panics? <==> !LowBitsClear(ptr, n)
    ensures r.Returns? ==> Valid(n, r.value) && DecomposePtr(n, r.value) == ptr && DecomposeTag(n, r.value) == tag & Mask(n)
  {
    match TryCompose(n, ptr, tag)
    case Returns(Ok(m)) => Returns(m)
    case _ => NonNullHasPointerOrTag(n, ptr); Panics
  }

  /*
   * Tag operations; each keeps the invariant.
   */

  /** `clear_tag`: the pointer half alone, tag 0. */
  function ClearTag(n: Width, m: MarkedNonNull): (r: MarkedNonNull)
    requires Valid(n, m)
    ensures Valid(n, r)
    ensures DecomposePtr(n, r) == DecomposePtr(n, m)
    ensures DecomposeTag(n, r) == 0
  {
    var ptr := DecomposeNonNull(n, m);
    UntaggedIsPointer(n, ptr);
    UntaggedHasNoTag(n, ptr);
    MarkedNonNull(ptr)
  }

  /** `split_tag`: the pointer with its tag cleared, and the tag. */
  function SplitTag(n: Width, m: MarkedNonNull): (r: (MarkedNonNull, Word))
    requires Valid(n, m)
    ensures r.0 == ClearTag(n, m) && r.1 == DecomposeTag(n, m)
  {
    var (inner, tag) := Decompose(n, m);
    (MarkedNonNull(inner), tag)
  }

  /** `set_tag`: `compose_unchecked(decompose_non_null, tag)`, the same pointer with a new tag. */
  function SetTag(n: Width, m: MarkedNonNull, tag: Word): (r: MarkedNonNull)
    requires Valid(n, m)
    ensures Valid(n, r)
    ensures DecomposePtr(n, r) == DecomposePtr(n, m)
    ensures DecomposeTag(n, r) == tag & Mask(n)
  {
    ComposeUnchecked(n, DecomposeNonNull(n, m), tag)
  }

  /** `update_tag`: the same pointer with the tag `func` computes from the current one. */
  function UpdateTag(n: Width, m: MarkedNonNull, func: Word -> Word): (r: MarkedNonNull)
    requires Valid(n, m)
    ensures Valid(n, r)
    ensures DecomposePtr(n, r) == DecomposePtr(n, m)
    ensures DecomposeTag(n, r) == func(DecomposeTag(n, m)) & Mask(n)
  {
    var (ptr, tag) := Decompose(n, m);
    ComposeUnchecked(n, ptr, func(tag))
  }

  /**
   * `add_tag` (unsafe): `wrapping_add` on the whole word. The caller must
   * ensure that the result is not null, marked or unmarked.
   */
  function AddTag(n: Width, m: MarkedNonNull, value: Word): (r: MarkedNonNull)
    requires Codec.DecomposePtr(n, WrappingAdd(m.inner, value)) != 0
    ensures Valid(n, r)
    ensures IntoUsize(r) == WrappingAdd(IntoUsize(m), value)
  {
    MarkedNonNull(WrappingAdd(m.inner, value))
  }

  /**
   * `sub_tag` (unsafe): `wrapping_sub` on the whole word. The caller must
   * ensure that the result is not null, marked or unmarked.
   */
  function SubTag(n: Width, m: MarkedNonNull, value: Word): (r: MarkedNonNull)
    requires Codec.DecomposePtr(n, WrappingSub(m.inner, value)) != 0
    ensures Valid(n, r)
    ensures IntoUsize(r) == WrappingSub(IntoUsize(m), value)
  {
    MarkedNonNull(WrappingSub(m.inner, value))
  }

  /*
   * Helpers for the proofs above.
   */

  /** The zero word has a null pointer half. */
  lemma NullHasNullPointer(n: Width)
    ensures Codec.DecomposePtr(n, 0) == 0
  {
  }

  /** A non-null word with a null pointer half has tag bits. */
  lemma NonNullHasPointerOrTag(n: Width, ptr: NonNullWord)
    ensures LowBitsClear(ptr, n) ==> Codec.DecomposePtr(n, ptr) != 0
  {
    InsideClearIsOutside(n, ptr);
  }

  /** A mask below the alignment, plus one, is at most the alignment. */
  lemma DanglingIsAlignment(align: Align, n: Width)
    requires MarkMask(align, n as Word).Some?
    ensures MarkMask(align, n as Word).value + 1 <= align
    ensures LowBitsClear(align, n) && Codec.DecomposePtr(n, align) == align
  {
    var k := LowerBits(align);
    MaskMonotone(n, k);
    SubmaskIsSmaller(Mask(n), Mask(k));
    AlignedPointerHasNoTag(align, n, align);
    UntaggedIsPointer(n, align);
  }

  lemma SubmaskIsSmaller(a: Word, b: Word)
    ensures a & b == a ==> a <= b
  {
  }

  /*
   * Properties.
   */

  /**
   * A valid pointer is accepted by every conversion, which keeps its word:
   * `new(into_marked_ptr(m))`, `try_from(into_raw(m))` and
   * `try_from(NonNull)` all give back `m`.
   */
  lemma ConversionsKeepValid(n: Width, m: MarkedNonNull)
    requires Valid(n, m)
    ensures New(n, IntoMarkedPtr(m)) == Ok(m)
    ensures TryFromNonNull(n, IntoRaw(m)) == Ok(m)
  {
  }

  /** A tag composed with a null pointer half is refused, and the refusal carries the tag. */
  lemma MarkedNullIsRefused(n: Width, tag: Word)
    requires tag & !Mask(n) == 0
    ensures New(n, ConstPtr.Join(n, 0, tag)) == Err(Null(tag))
  {
    FittingTagIsKept(n, tag);
  }

  /** An aligned pointer with a fitting tag decomposes back into both. */
  lemma ComposeDecompose(align: Align, n: Width, ptr: NonNullWord, tag: Word)
    requires MarkMask(align, n as Word).Some?
    requires Aligned(align, ptr)
    requires tag & !Mask(n) == 0
    ensures Compose(n, ptr, tag).Returns?
    ensures Decompose(n, Compose(n, ptr, tag).value) == (ptr, tag)
  {
    AlignedPointerHasNoTag(align, n, ptr);
    FittingTagIsKept(n, tag);
  }

  /** `sub_tag` undoes `add_tag` (and the other way round) whenever both are allowed. */
  lemma AddSubTagInverse(n: Width, m: MarkedNonNull, value: Word)
    requires Valid(n, m)
    requires Codec.DecomposePtr(n, WrappingAdd(m.inner, value)) != 0
    ensures Codec.DecomposePtr(n, WrappingSub(AddTag(n, m, value).inner, value)) != 0
    ensures SubTag(n, AddTag(n, m, value), value) == m
  {
    WrappingSubUndoesAdd(m.inner, value);
  }

  /**
   * The swapped arms of `try_compose` as written refuse every pointer that
   * can be composed: an aligned, non-null `ptr` (here `0x1000` with two tag
   * bits) is turned away, while the documented behaviour composes it.
   */
  lemma TryComposeAsWrittenRefusesAligned()
    ensures TryComposeAsWritten(2, 0x1000, 1) == Returns(Err(Null(0x1000)))
    ensures TryCompose(2, 0x1000, 1) == Returns(Ok(MarkedNonNull(0x1001)))
  {
    assert Mask(2) == 3;
  }

  /**
   * In a release build, the as-written `try_compose` accepts the word 1
   * with two tag bits, a null pointer half, as `Ok(MarkedNonNull(1))`: a
   * marked null the type is meant to exclude.
   */
  lemma TryComposeAsWrittenReleaseAcceptsMarkedNull()
    ensures TryComposeAsWrittenRelease(2, 1, 1) == Ok(MarkedNonNull(1))
    ensures !Valid(2, MarkedNonNull(1))
    ensures TryCompose(2, 1, 1) == Returns(Err(Null(1)))
  {
    assert Mask(2) == 3;
  }

  /** As written, `try_compose` never succeeds, so `compose` always panics. */
  lemma TryComposeAsWrittenNeverSucceeds(n: Width, ptr: NonNullWord, tag: Word)
    ensures !(TryComposeAsWritten(n, ptr, tag).Returns? && TryComposeAsWritten(n, ptr, tag).value.Ok?)
  {
  }
}

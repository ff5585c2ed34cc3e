/**
 * The `typenum` flavour of the marked pointer types (src/raw.rs):
 * `MarkedPtr<T, N>`, a nullable word, and `MarkedNonNull<T, N>`, a non-null
 * word. The number of tag bits `N` is the parameter `n` of every operation
 * that needs the mask; the pointee type `T` only matters through its
 * alignment (see Codec.MarkMask).
 */
module TypenumPtr {

  import opened RustCore
  import opened Codec
  import MarkedOptions

  /** `MarkedPtr<T, N>`: a raw pointer word that may carry a tag. */
  datatype MarkedPtr = MarkedPtr(inner: Word)

  /**
   * `MarkedNonNull<T, N>`: a non-null pointer word that may carry a tag.
   * The constructor is `From<NonNull<T>>`, which accepts any non-null word.
   */
  datatype MarkedNonNull = MarkedNonNull(inner: NonNullWord)

  /** `NullError`: the failed conversion of a (marked) null pointer. */
  datatype NullError = NullError

  /*
   * MarkedPtr
   */

  /** `new`: the pointer word as is, unmarked. */
  function New(ptr: Word): MarkedPtr
  {
    MarkedPtr(ptr)
  }

  /** `null`: `new` of the null pointer. */
  function Null(): MarkedPtr
  {
    New(0)
  }

  /** `Default`: `null`. */
  function Default(): MarkedPtr
  {
    Null()
  }

  /** `from_usize`: the integer taken as the marked pointer word, tag included. */
  function FromUsize(val: Word): MarkedPtr
  {
    MarkedPtr(val)
  }

  /** `into_usize`: the word with its tag, from which `from_usize` rebuilds `m`. */
  function IntoUsize(m: MarkedPtr): (r: Word)
    ensures FromUsize(r) == m
  {
    m.inner
  }

  /** `decompose_ptr`: the word with its tag bits cleared. */
  function DecomposePtr(n: Width, m: MarkedPtr): Word
  {
    Codec.DecomposePtr(n, m.inner)
  }

  /** `decompose_tag`: the tag bits of the word. */
  function DecomposeTag(n: Width, m: MarkedPtr): Word
  {
    Codec.DecomposeTag(n, m.inner)
  }

  /**
   * `compose`: `ptr` marked with the low `n` bits of `tag`; `ptr` must have
   * no tag bits (the `debug_assert` of the shared `compose`).
   */
  function Compose(n: Width, ptr: Word, tag: Word): (r: MarkedPtr)
    requires LowBitsClear(ptr, n)
    ensures DecomposePtr(n, r) == ptr
    ensures DecomposeTag(n, r) == tag & Mask(n)
  {
    New(Codec.Compose(n, ptr, tag))
  }

  /** `decompose`: a tag-free pointer and a tag, which compose back to `m`. */
  function Decompose(n: Width, m: MarkedPtr): (r: (Word, Word))
    ensures r == (DecomposePtr(n, m), DecomposeTag(n, m))
    ensures LowBitsClear(r.0, n)
    ensures r.1 & !Mask(n) == 0
    ensures Compose(n, r.0, r.1) == m
  {
    Codec.Decompose(n, m.inner)
  }

  /** `clear_tag`: the same pointer with tag 0. */
  function ClearTag(n: Width, m: MarkedPtr): (r: MarkedPtr)
    ensures DecomposePtr(n, r) == DecomposePtr(n, m)
    ensures DecomposeTag(n, r) == 0
  {
    PtrHalfHasNoTag(n, m.inner);
    UntaggedIsPointer(n, DecomposePtr(n, m));
    UntaggedHasNoTag(n, DecomposePtr(n, m));
    New(DecomposePtr(n, m))
  }

  /** `with_tag`: the same pointer with the tag replaced by the low `n` bits of `tag`. */
  function WithTag(n: Width, m: MarkedPtr, tag: Word): (r: MarkedPtr)
    ensures DecomposePtr(n, r) == DecomposePtr(n, m)
    ensures DecomposeTag(n, r) == tag & Mask(n)
  {
    PtrHalfHasNoTag(n, m.inner);
    Compose(n, DecomposePtr(n, m), tag)
  }

  /** `null` and `Default` are the null pointer with tag 0, whatever the tag width. */
  lemma NullIsUnmarked(n: Width)
    ensures Default() == Null()
    ensures Decompose(n, Null()) == (0, 0)
  {
  }

  /** `new` of a pointer without tag bits decomposes to that pointer and tag 0. */
  lemma NewIsUnmarked(n: Width, ptr: Word)
    requires LowBitsClear(ptr, n)
    ensures Decompose(n, New(ptr)) == (ptr, 0)
  {
    UntaggedIsPointer(n, ptr);
    UntaggedHasNoTag(n, ptr);
  }

  /** `into_usize` undoes `from_usize`. */
  lemma UsizeRoundTrip(w: Word)
    ensures IntoUsize(FromUsize(w)) == w
  {
  }

  /** The integer 1 read with one tag bit is a null pointer marked with tag 1. */
  lemma FromUsizeOneIsMarkedNull()
    ensures Decompose(1, FromUsize(1)) == (0, 1)
  {
    assert Mask(1) == 1;
  }

  /**
   * `compose` followed by `decompose` restores a pointer aligned for `T` and
   * a tag that fits in the `n` bits the alignment leaves free.
   */
  lemma ComposeDecompose(align: Align, n: Width, ptr: Word, tag: Word)
    requires MarkMask(align, n as Word).Some?
    requires Aligned(align, ptr)
    requires tag & !Mask(n) == 0
    ensures LowBitsClear(ptr, n)
    ensures Decompose(n, Compose(n, ptr, tag)) == (ptr, tag)
  {
    AlignedRoundTrip(align, n, ptr, tag);
  }

  /** `clear_tag` of a composed pointer decomposes to the pointer and tag 0. */
  lemma ClearTagOfComposed(align: Align, n: Width, ptr: Word, tag: Word)
    requires MarkMask(align, n as Word).Some?
    requires Aligned(align, ptr)
    ensures LowBitsClear(ptr, n)
    ensures Decompose(n, ClearTag(n, Compose(n, ptr, tag))) == (ptr, 0)
  {
    AlignedPointerHasNoTag(align, n, ptr);
  }

  /** `with_tag` of a composed pointer decomposes to the pointer and the new tag. */
  lemma WithTagOfComposed(align: Align, n: Width, ptr: Word, tag: Word, newTag: Word)
    requires MarkMask(align, n as Word).Some?
    requires Aligned(align, ptr)
    requires newTag & !Mask(n) == 0
    ensures LowBitsClear(ptr, n)
    ensures Decompose(n, WithTag(n, Compose(n, ptr, tag), newTag)) == (ptr, newTag)
  {
    AlignedPointerHasNoTag(align, n, ptr);
    FittingTagIsKept(n, newTag);
  }

  /*
   * MarkedNonNull
   */

  /**
   * The safety condition of `new_unchecked` that every `MarkedNonNull` is
   * meant to keep: the pointer, once the tag is stripped, is still non-null.
   */
  predicate Valid(n: Width, m: MarkedNonNull)
  {
    Codec.DecomposePtr(n, m.inner) != 0
  }

  /** `From<NonNull<T>>`: the non-null word as is. */
  function FromNonNull(ptr: NonNullWord): MarkedNonNull
  {
    MarkedNonNull(ptr)
  }

  /** `dangling`: `NonNull::dangling()`, whose word is the alignment itself. */
  function Dangling(align: Align): MarkedNonNull
  {
    FromNonNull(align)
  }

  /** `into_marked_ptr`: the same word as a nullable `MarkedPtr`. */
  function IntoMarkedPtr(m: MarkedNonNull): MarkedPtr
  {
    New(m.inner)
  }

  /** `decompose_ptr`: the word with its tag bits cleared. */
  function NonNullDecomposePtr(n: Width, m: MarkedNonNull): Word
  {
    Codec.DecomposePtr(n, m.inner)
  }

  /** `decompose_tag`: the tag bits of the word. */
  function NonNullDecomposeTag(n: Width, m: MarkedNonNull): Word
  {
    Codec.DecomposeTag(n, m.inner)
  }

  /**
   * `decompose_non_null`: the pointer half as a `NonNull`, which
   * `NonNull::new_unchecked` only allows for a valid pointer.
   */
  function DecomposeNonNull(n: Width, m: MarkedNonNull): NonNullWord
    requires Valid(n, m)
  {
    NonNullDecomposePtr(n, m)
  }

  /**
   * `new`: panics if `ptr` has tag bits; otherwise `None` exactly for the
   * null pointer and a valid pointer with the same word for any other.
   */
  function NewNonNull(n: Width, ptr: Word): (r: Outcome<Option<MarkedNonNull>>)
    ensures r.Panics? <==> !LowBitsClear(ptr, n)
    ensures r.Returns? ==> (r.value.None? <==> ptr == 0)
    ensures r.Returns? && r.value.Some? ==> r.value.value.inner == ptr && Valid(n, r.value.value)
  {
    if !LowBitsClear(ptr, n) then Panics
    else if ptr == 0 then Returns(None)
    else
      UntaggedIsPointer(n, ptr);
      Returns(Some(FromNonNull(ptr)))
  }

  /**
   * `compose`: panics if `ptr` has tag bits; otherwise a valid pointer that
   * decomposes to `ptr` and the low `n` bits of `tag`.
   */
  function ComposeNonNull(n: Width, ptr: NonNullWord, tag: Word): (r: Outcome<MarkedNonNull>)
    ensures r.Panics? <==> !LowBitsClear(ptr, n)
    ensures r.Returns? ==> Valid(n, r.value)
    ensures r.Returns? ==> NonNullDecomposePtr(n, r.value) == ptr
    ensures r.Returns? ==> NonNullDecomposeTag(n, r.value) == tag & Mask(n)
  {
    if !LowBitsClear(ptr, n) then Panics
    else
      var w := Codec.Compose(n, ptr, tag);
      assert w != 0 by { assert Codec.DecomposePtr(n, w) == ptr; }
      Returns(FromNonNull(w))
  }

  /**
   * `decompose` of a valid pointer: the non-null pointer and the tag, from
   * which `compose` rebuilds `m` without panicking.
   */
  function NonNullDecompose(n: Width, m: MarkedNonNull): (r: (NonNullWord, Word))
    requires Valid(n, m)
    ensures r == (NonNullDecomposePtr(n, m), NonNullDecomposeTag(n, m))
    ensures r.1 & !Mask(n) == 0
    ensures ComposeNonNull(n, r.0, r.1) == Returns(m)
  {
    DecomposeRecomposes(n, m.inner);
    HalvesDisjointInMask(n, m.inner);
    (DecomposeNonNull(n, m), NonNullDecomposeTag(n, m))
  }

  /**
   * `from_marked_ptr`: a `Value` exactly when the pointer half is non-null,
   * holding the same word; otherwise a `Null` with the tag, which is then
   * the whole word.
   */
  function FromMarkedPtr(n: Width, m: MarkedPtr): (r: MarkedOptions.MarkedOption<MarkedNonNull>)
    ensures r.Value? <==> DecomposePtr(n, m) != 0
    ensures r.Value? ==> r.value.inner == m.inner && Valid(n, r.value)
    ensures r.Null? ==> r.tag == DecomposeTag(n, m) && r.tag == m.inner
  {
    var (ptr, tag) := Decompose(n, m);
    if ptr != 0 then
      MarkedOptions.Value(FromNonNull(m.inner))
    else
      MarkedNullIsTag(n, m.inner);
      MarkedOptions.Null(tag)
  }

  /** `TryFrom<MarkedPtr>`: `from_marked_ptr` with the null case as an error. */
  function TryFrom(n: Width, m: MarkedPtr): (r: Result<MarkedNonNull, NullError>)
    ensures r.Err? <==> DecomposePtr(n, m) == 0
    ensures r.Ok? ==> r.value.inner == m.inner && Valid(n, r.value)
  {
    match FromMarkedPtr(n, m)
    case Value(ptr) => Ok(ptr)
    case Null(_) => Err(NullError)
  }

  /** `dangling` is a valid pointer with tag 0 for every tag width the type admits. */
  lemma DanglingIsValid(align: Align, n: Width)
    requires MarkMask(align, n as Word).Some?
    ensures Valid(n, Dangling(align))
    ensures NonNullDecomposeTag(n, Dangling(align)) == 0
  {
    AlignedPointerHasNoTag(align, n, align);
    UntaggedIsPointer(n, align);
    UntaggedHasNoTag(n, align);
  }

  /** A valid pointer survives the trip through `into_marked_ptr` and `try_from`. */
  lemma MarkedPtrRoundTrip(n: Width, m: MarkedNonNull)
    requires Valid(n, m)
    ensures FromMarkedPtr(n, IntoMarkedPtr(m)) == MarkedOptions.Value(m)
    ensures TryFrom(n, IntoMarkedPtr(m)) == Ok(m)
  {
  }

  /** A marked null pointer keeps its tag through `from_marked_ptr`. */
  lemma MarkedNullKeepsTag(n: Width, tag: Word)
    requires tag & !Mask(n) == 0
    ensures FromMarkedPtr(n, Compose(n, 0, tag)) == MarkedOptions.Null(tag)
  {
    FittingTagIsKept(n, tag);
  }
}

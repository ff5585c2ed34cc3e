/**
 * The `MarkedPtr<T, N>` of src/nightly/raw.rs (the const-generic flavour
 * built on the nightly compiler): a nullable pointer word whose low `N` bits
 * hold a tag. Every operation goes through the shared codec of src/lib.rs
 * with `N` tag bits.
 */
module NightlyPtr {

  import opened Codec

  /** `MarkedPtr<T, N>` (nightly): the pointer word, tag included. */
  datatype MarkedPtr = MarkedPtr(ptr: Word)

  /** `new`: the pointer word as is. */
  function New(ptr: Word): MarkedPtr
  {
    MarkedPtr(ptr)
  }

  /** `null`: the zero word. */
  function Null(): MarkedPtr
  {
    MarkedPtr(0)
  }

  /** `Default`: `new` of the null pointer. */
  function Default(): MarkedPtr
  {
    New(0)
  }

  /** `from_usize`: the integer taken as the marked word, tag included. */
  function FromUsize(val: Word): MarkedPtr
  {
    MarkedPtr(val)
  }

  /** `into_usize`: the word with its tag, from which `from_usize` rebuilds `m`. */
  function IntoUsize(m: MarkedPtr): (r: Word)
    ensures FromUsize(r) == m
  {
    m.ptr
  }

  /** `into_ptr`: the raw word, tag included. */
  function IntoPtr(m: MarkedPtr): Word
  {
    m.ptr
  }

  /** `decompose_ptr`: the word with the `n` tag bits cleared. */
  function DecomposePtr(n: Width, m: MarkedPtr): Word
  {
    Codec.DecomposePtr(n, m.ptr)
  }

  /** `decompose_tag`: the `n` tag bits alone. */
  function DecomposeTag(n: Width, m: MarkedPtr): Word
  {
    Codec.DecomposeTag(n, m.ptr)
  }

  /**
   * `compose`: `ptr` marked with the low `n` bits of `tag`; `ptr` must have
   * no tag bits (the debug assertion of the shared codec).
   */
  function Compose(n: Width, ptr: Word, tag: Word): (r: MarkedPtr)
    requires LowBitsClear(ptr, n)
    ensures DecomposePtr(n, r) == ptr
    ensures DecomposeTag(n, r) == tag & Mask(n)
  {
    MarkedPtr(Codec.Compose(n, ptr, tag))
  }

  /** `decompose`: the pointer and the tag, which compose back to `m`. */
  function Decompose(n: Width, m: MarkedPtr): (r: (Word, Word))
    ensures r == (DecomposePtr(n, m), DecomposeTag(n, m))
    ensures LowBitsClear(r.0, n)
    ensures Compose(n, r.0, r.1) == m
  {
    Codec.Decompose(n, m.ptr)
  }

  /** `clear_tag`: `new(decompose_ptr)`, the same pointer with tag 0. */
  function ClearTag(n: Width, m: MarkedPtr): (r: MarkedPtr)
    ensures DecomposePtr(n, r) == DecomposePtr(n, m)
    ensures DecomposeTag(n, r) == 0
  {
    PtrHalfHasNoTag(n, m.ptr);
    UntaggedIsPointer(n, DecomposePtr(n, m));
    UntaggedHasNoTag(n, DecomposePtr(n, m));
    New(DecomposePtr(n, m))
  }

  /** `is_null`: the pointer half is null, whatever the tag. */
  function IsNull(n: Width, m: MarkedPtr): (r: bool)
    ensures r <==> DecomposePtr(n, m) == 0
    ensures r <==> m.ptr == DecomposeTag(n, m)
  {
    HalvesMakeWord(n, m.ptr);
    DecomposePtr(n, m) == 0
  }

  /** `From<(*mut T, usize)>` and `From<(*const T, usize)>`: `compose` of the pair. */
  function FromPair(n: Width, pair: (Word, Word)): (r: MarkedPtr)
    requires LowBitsClear(pair.0, n)
    ensures Decompose(n, r) == (pair.0, pair.1 & Mask(n))
  {
    Compose(n, pair.0, pair.1)
  }

  /** `PartialEq`: the whole words are compared, tag included. */
  function Eq(a: MarkedPtr, b: MarkedPtr): bool
  {
    a.ptr == b.ptr
  }

  /** `null` and `Default` are the same zero word, with no pointer and no tag. */
  lemma NullIsDefault(n: Width)
    ensures Null() == Default()
    ensures IntoUsize(Null()) == 0
    ensures Decompose(n, Null()) == (0, 0)
  {
  }

  /** `from_usize` and `into_usize` are inverse. */
  lemma UsizeRoundTrip(w: Word)
    ensures IntoUsize(FromUsize(w)) == w
  {
  }

  /** A pointer is null after `compose` exactly when the pointer composed was null. */
  lemma ComposedIsNull(n: Width, ptr: Word, tag: Word)
    requires LowBitsClear(ptr, n)
    ensures IsNull(n, Compose(n, ptr, tag)) <==> ptr == 0
  {
  }

  /**
   * Equality tells pointers apart by their tags too: two marked pointers are
   * equal exactly when both their pointers and their tags are.
   */
  lemma EqComparesBothHalves(n: Width, a: MarkedPtr, b: MarkedPtr)
    ensures Eq(a, b) <==> DecomposePtr(n, a) == DecomposePtr(n, b) && DecomposeTag(n, a) == DecomposeTag(n, b)
  {
    SameHalvesSameWord(n, a.ptr, b.ptr);
  }
}

/**
 * `MarkedNativePtr<T>` and `AtomicMarkedNativePtr<T>` of src/arch64/mod.rs:
 * a pointer word whose 16 high bits carry a `u16` tag, and the (so far
 * constructor-only) atomic cell that holds one.
 */
module NativePtr {

  import opened Codec
  import HighBits

  /** `MarkedNativePtr<T>`: a pointer word with a tag in bits 48..63. */
  datatype MarkedNativePtr = MarkedNativePtr(inner: Word)

  /** `MARK_BITS`. */
  const MarkBits: Word := 16

  /** `MARK_SHIFT`. */
  const MarkShift: Word := 48

  /** `MARK_MASK`: the bits above the address bits. */
  const MarkMask: Word := 0xFFFF << MarkShift

  /** `POINTER_MASK`: the complement of `MARK_MASK`. */
  const PointerMask: Word := !MarkMask

  /** `new`: the pointer word as is. */
  function New(ptr: Word): MarkedNativePtr
  {
    MarkedNativePtr(ptr)
  }

  /** `null` (and `Default`): `new` of the null pointer. */
  function Null(): MarkedNativePtr
  {
    New(0)
  }

  /** `from_usize`: the integer taken as the marked word, tag included. */
  function FromUsize(val: Word): MarkedNativePtr
  {
    MarkedNativePtr(val)
  }

  /** `into_ptr`: the raw word, tag included. */
  function IntoPtr(m: MarkedNativePtr): Word
  {
    m.inner
  }

  /** `into_usize`: the word with its tag, from which `from_usize` rebuilds `m`. */
  function IntoUsize(m: MarkedNativePtr): (r: Word)
    ensures FromUsize(r) == m
  {
    m.inner
  }

  /**
   * `decompose_ptr`: `inner & POINTER_MASK`, the word with bits 48..63
   * cleared (the masks are those of the shared layout, see SameLayout).
   */
  function DecomposePtr(m: MarkedNativePtr): (r: Word)
    ensures r < HighBits.AddressLimit
    ensures r & MarkMask == 0
  {
    HighBits.DecomposePtr(m.inner)
  }

  /** `decompose_tag`: bits 48..63 of the word, `(inner >> MARK_SHIFT) as u16`. */
  function DecomposeTag(m: MarkedNativePtr): bv16
  {
    HighBits.DecomposeTag(m.inner)
  }

  /** `decompose`: the address and the tag, which compose back to `m`. */
  function Decompose(m: MarkedNativePtr): (r: (Word, bv16))
    ensures r.0 == DecomposePtr(m) && r.1 == DecomposeTag(m)
    ensures Compose(r.0, r.1) == m
  {
    HighBits.Recompose(m.inner);
    (DecomposePtr(m), DecomposeTag(m))
  }

  /**
   * `compose`: `ptr | (tag as usize) << MARK_SHIFT`, the expression of the
   * helper of src/arch64.rs with the same shift. The address bits are those of `ptr` and the tag
   * is `tag` or-ed into the bits `ptr` had above bit 47.
   */
  function Compose(ptr: Word, tag: bv16): (r: MarkedNativePtr)
    ensures DecomposePtr(r) == DecomposePtr(New(ptr))
    ensures DecomposeTag(r) == DecomposeTag(New(ptr)) | tag
  {
    New(HighBits.Compose(ptr, tag))
  }

  /** `clear_tag`: the same address with tag 0. */
  function ClearTag(m: MarkedNativePtr): (r: MarkedNativePtr)
    ensures DecomposePtr(r) == DecomposePtr(m)
    ensures DecomposeTag(r) == 0
  {
    New(DecomposePtr(m))
  }

  /** `with_tag`: the same address with the tag replaced by `tag`. */
  function WithTag(m: MarkedNativePtr, tag: bv16): (r: MarkedNativePtr)
    ensures DecomposePtr(r) == DecomposePtr(m)
    ensures DecomposeTag(r) == tag
  {
    Compose(DecomposePtr(m), tag)
  }

  /** The mark mask is the tag mask of the shared high-bit layout. */
  lemma SameLayout()
    ensures MarkMask == HighBits.TagMask && PointerMask == HighBits.PointerMask
    ensures MarkBits == 64 - MarkShift
  {
  }

  /** `null` is the zero word: no address and no tag. */
  lemma NullIsZero()
    ensures IntoUsize(Null()) == 0
    ensures Decompose(Null()) == (0, 0)
  {
  }

  /** `from_usize` and `into_usize` are inverse. */
  lemma UsizeRoundTrip(w: Word)
    ensures IntoUsize(FromUsize(w)) == w
  {
  }

  /** For an address below 2^48, `compose` then `decompose` gives back both parts. */
  lemma ComposeDecompose(ptr: Word, tag: bv16)
    requires ptr < HighBits.AddressLimit
    ensures Decompose(Compose(ptr, tag)) == (ptr, tag)
  {
    HighBits.ComposeRoundTrip(ptr, tag);
  }

  /** Retagging twice keeps only the second tag. */
  lemma WithTagTwice(m: MarkedNativePtr, first: bv16, second: bv16)
    ensures WithTag(WithTag(m, first), second) == WithTag(m, second)
  {
  }

  /** `AtomicMarkedNativePtr<T>`: an atomic cell holding a marked native pointer word. */
  class AtomicMarkedNativePtr {
    var inner: Word

    /** `null` (and `Default`): a cell holding the zero word. */
    constructor Null()
      ensures inner == 0
    {
      inner := 0;
    }
  }
}

/**
 * `MarkedPtr64<T>` of src/arch64/imp/ptr.rs: a nullable pointer word with a
 * `u16` tag in bits 48..63. Its constants come from `impl_constants`
 * (src/macros.rs) and most of its methods from the `impl_ptr_inherent_const`
 * and `impl_ptr_inherent` macros of src/macros/ptr.rs, instantiated with
 * `tag_type = u16`; `compose`, `decompose_ptr` and `decompose_tag` are its
 * own and use the high-bit layout of src/arch64.rs.
 */
module Ptr64 {

  import opened Codec
  import HighBits

  /** `MarkedPtr64<T>`: a pointer word with a 16-bit tag above the address bits. */
  datatype MarkedPtr64 = MarkedPtr64(inner: Word)

  /** `TAG_BITS`. */
  const TagBits: bv16 := 16

  /** `TAG_SHIFT`. */
  const TagShift: Word := 48

  /** `TAG_MASK`: `0xFFFF << TAG_SHIFT`. */
  const TagMask: Word := 0xFFFF << TagShift

  /** `POINTER_MASK`: `!TAG_MASK`. */
  const PointerMask: Word := !TagMask

  /*
   * From `impl_ptr_inherent_const`.
   */

  /** `new`: the pointer word as is. */
  function New(ptr: Word): MarkedPtr64
  {
    MarkedPtr64(ptr)
  }

  /** `null` (and `Default`): `new` of the null pointer. */
  function Null(): MarkedPtr64
  {
    New(0)
  }

  /** `from_usize`: the integer taken as the marked word, tag included. */
  function FromUsize(val: Word): MarkedPtr64
  {
    New(val)
  }

  /** `into_raw`: the raw word, tag included. */
  function IntoRaw(m: MarkedPtr64): Word
  {
    m.inner
  }

  /** `into_usize`: the word with its tag, from which `from_usize` rebuilds `m`. */
  function IntoUsize(m: MarkedPtr64): (r: Word)
    ensures FromUsize(r) == m
  {
    m.inner
  }

  /*
   * Own methods: the high-bit codec.
   */

  /** `decompose_ptr`: `inner & POINTER_MASK`, an address below 2^48. */
  function DecomposePtr(m: MarkedPtr64): (r: Word)
    ensures r < HighBits.AddressLimit
    ensures r & TagMask == 0
  {
    HighBits.DecomposePtr(m.inner)
  }

  /** `decompose_tag`: `(inner >> TAG_SHIFT) as u16`. */
  function DecomposeTag(m: MarkedPtr64): bv16
  {
    HighBits.DecomposeTag(m.inner)
  }

  /**
   * `compose`: `new(arch64::compose(ptr, tag))`. The address bits are those
   * of `ptr`; the tag is `tag` or-ed into the bits `ptr` had above bit 47.
   */
  function Compose(ptr: Word, tag: bv16): (r: MarkedPtr64)
    ensures DecomposePtr(r) == DecomposePtr(New(ptr))
    ensures DecomposeTag(r) == DecomposeTag(New(ptr)) | tag
  {
    New(HighBits.Compose(ptr, tag))
  }

  /*
   * From `impl_ptr_inherent` with `tag_type = u16`.
   */

  /** `is_null`: the address is null, whatever the tag. */
  function IsNull(m: MarkedPtr64): (r: bool)
    ensures r <==> DecomposePtr(m) == 0
    ensures r <==> m.inner & PointerMask == 0
  {
    DecomposePtr(m) == 0
  }

  /** `clear_tag`: `new(decompose_ptr)`, the same address with tag 0. */
  function ClearTag(m: MarkedPtr64): (r: MarkedPtr64)
    ensures DecomposePtr(r) == DecomposePtr(m)
    ensures DecomposeTag(r) == 0
  {
    New(DecomposePtr(m))
  }

  /** `decompose`: the address and the tag, which compose back to `m`. */
  function Decompose(m: MarkedPtr64): (r: (Word, bv16))
    ensures r.0 == DecomposePtr(m) && r.1 == DecomposeTag(m)
    ensures Compose(r.0, r.1) == m
  {
    HighBits.Recompose(m.inner);
    (DecomposePtr(m), DecomposeTag(m))
  }

  /** `split_tag`: the untagged pointer and the tag, which compose back to `m`. */
  function SplitTag(m: MarkedPtr64): (r: (MarkedPtr64, bv16))
    ensures r.0 == ClearTag(m) && r.1 == DecomposeTag(m)
    ensures Compose(r.0.inner, r.1) == m
  {
    var (ptr, tag) := Decompose(m);
    (New(ptr), tag)
  }

  /** `set_tag`: `compose(decompose_ptr, tag)`, the same address with tag `tag`. */
  function SetTag(m: MarkedPtr64, tag: bv16): (r: MarkedPtr64)
    ensures DecomposePtr(r) == DecomposePtr(m)
    ensures DecomposeTag(r) == tag
  {
    Compose(DecomposePtr(m), tag)
  }

  /** `update_tag`: the same address with the tag `func` computes from the current one. */
  function UpdateTag(m: MarkedPtr64, func: bv16 -> bv16): (r: MarkedPtr64)
    ensures DecomposePtr(r) == DecomposePtr(m)
    ensures DecomposeTag(r) == func(DecomposeTag(m))
  {
    var (ptr, tag) := Decompose(m);
    Compose(ptr, func(tag))
  }

  /** `add_tag`: `wrapping_add` on the whole word. */
  function AddTag(m: MarkedPtr64, value: Word): MarkedPtr64
  {
    FromUsize(WrappingAdd(IntoUsize(m), value))
  }

  /** `sub_tag`: `wrapping_sub` on the whole word. */
  function SubTag(m: MarkedPtr64, value: Word): MarkedPtr64
  {
    FromUsize(WrappingSub(IntoUsize(m), value))
  }

  /*
   * Properties.
   */

  /** The constants describe the shared high-bit layout. */
  lemma SameLayout()
    ensures TagMask == HighBits.TagMask && PointerMask == HighBits.PointerMask
    ensures TagBits as Word == 64 - TagShift
  {
  }

  /** `null` is the zero word: no address and no tag, and it is null. */
  lemma NullIsZero()
    ensures IntoUsize(Null()) == 0
    ensures Decompose(Null()) == (0, 0)
    ensures IsNull(Null())
  {
  }

  /** `from_usize` and `into_usize` are inverse. */
  lemma UsizeRoundTrip(w: Word)
    ensures IntoUsize(FromUsize(w)) == w
  {
  }

  /** For an address below 2^48, `compose` then `decompose` gives back both parts. */
  lemma ComposeDecompose(ptr: Word, tag: bv16)
    requires ptr < HighBits.AddressLimit
    ensures Decompose(Compose(ptr, tag)) == (ptr, tag)
  {
    HighBits.ComposeRoundTrip(ptr, tag);
  }

  /** A null address stays null whatever tag it is composed with. */
  lemma MarkedNullIsNull(tag: bv16)
    ensures IsNull(Compose(0, tag))
    ensures DecomposeTag(Compose(0, tag)) == tag
  {
  }

  /** `sub_tag` undoes `add_tag` for every word and every value, since both wrap. */
  lemma AddSubTagInverse(m: MarkedPtr64, value: Word)
    ensures SubTag(AddTag(m, value), value) == m
    ensures AddTag(SubTag(m, value), value) == m
  {
    WrappingSubUndoesAdd(m.inner, value);
    WrappingAddUndoesSub(m.inner, value);
  }
}

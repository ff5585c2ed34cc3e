/**
 * The high-bit tagging layout of src/arch64.rs.
 *
 * On 64-bit targets only the low 48 bits of an address are significant, so
 * the 16 bits above them can hold a tag of type `u16` that needs no
 * alignment from the pointee. The tag is shifted into bits 48..63 and read
 * back by shifting down and truncating to 16 bits.
 */
module HighBits {

  import opened Codec

  /** A 16-bit tag (`u16`). */
  type Tag16 = bv16

  /** `TAG_SHIFT`: the position of the lowest tag bit. */
  const TagShift: Word := 48

  /** `TAG_BITS`: the number of tag bits. */
  const TagBits: bv16 := 16

  /** `TAG_MASK`: the 16 bits above the address bits. */
  const TagMask: Word := 0xFFFF << TagShift

  /** `POINTER_MASK`: every bit outside the tag. */
  const PointerMask: Word := !TagMask

  /** The first word that does not fit in the 48 address bits, 2^48. */
  const AddressLimit: Word := 0x1_0000_0000_0000

  /** The address bits of `w`: bits 48..63 cleared. */
  function DecomposePtr(w: Word): Word
  {
    w & PointerMask
  }

  /** The tag of `w`: `(w >> 48) as u16`. */
  function DecomposeTag(w: Word): Tag16
  {
    (w >> 48) as Tag16
  }

  /**
   * `compose`: `ptr | (tag as usize) << TAG_SHIFT`. The address bits are
   * those of `ptr`; the tag is `tag` or-ed into whatever `ptr` had above
   * bit 47 (nothing, for a real address).
   */
  function Compose(ptr: Word, tag: Tag16): (r: Word)
    ensures DecomposePtr(r) == DecomposePtr(ptr)
    ensures DecomposeTag(r) == DecomposeTag(ptr) | tag
  {
    ptr | ((tag as Word) << 48)
  }

  /**
   * The constants: the tag mask is exactly bits 48..63, the pointer mask
   * exactly bits 0..47, and the tag width is what the shift leaves.
   */
  lemma LayoutConstants()
    ensures TagMask == 0xFFFF_0000_0000_0000
    ensures PointerMask == 0x0000_FFFF_FFFF_FFFF
    ensures TagBits as Word == 64 - TagShift
    ensures TagMask & PointerMask == 0 && TagMask | PointerMask == 0xFFFF_FFFF_FFFF_FFFF
  {
  }

  /** An address below 2^48 is exactly a word without tag bits. */
  lemma AddressHasNoTag(ptr: Word)
    ensures ptr < AddressLimit <==> ptr & TagMask == 0
    ensures ptr < AddressLimit <==> DecomposePtr(ptr) == ptr
    ensures ptr < AddressLimit ==> DecomposeTag(ptr) == 0
  {
  }

  /** For an address below 2^48, decomposing a composed word gives back both parts. */
  lemma ComposeRoundTrip(ptr: Word, tag: Tag16)
    requires ptr < AddressLimit
    ensures DecomposePtr(Compose(ptr, tag)) == ptr
    ensures DecomposeTag(Compose(ptr, tag)) == tag
  {
    AddressHasNoTag(ptr);
  }

  /** Every word is the composition of its two halves. */
  lemma Recompose(w: Word)
    ensures DecomposePtr(w) < AddressLimit
    ensures Compose(DecomposePtr(w), DecomposeTag(w)) == w
  {
  }

  /** Two words with the same address bits and the same tag are equal. */
  lemma HalvesDetermineWord(a: Word, b: Word)
    ensures DecomposePtr(a) == DecomposePtr(b) && DecomposeTag(a) == DecomposeTag(b) ==> a == b
  {
    Recompose(a);
    Recompose(b);
  }
}

/**
 * The older `AtomicMarkedPtr<T, N>` of src/atomic.rs: the same atomic word
 * as AtomicPtr, but `fetch_add`/`fetch_sub` carry no assertion and the
 * bitwise `fetch_and`, `fetch_nand`, `fetch_or` and `fetch_xor` apply
 * `value` to the whole word, unmasked, although their documentation says
 * that they act on the tag and that the pointer cannot change.
 *
 * The class models the code as written; TagNand and TagXor (with
 * AtomicPtr.TagAnd and AtomicPtr.TagOr) are the tag-only operations the
 * documentation describes, and the lemmas below say exactly when the two
 * agree.
 */
module LegacyAtomic {

  import opened RustCore
  import opened Codec
  import ConstPtr
  import AtomicPtr

  /** `AtomicMarkedPtr<T, N>` (src/atomic.rs): an atomic cell holding a marked pointer word. */
  class AtomicMarkedPtr {
    /** `MARK_BITS`, the `N` of the type. */
    const markBits: Width
    var inner: Word

    /** `null` (and `Default`): a cell holding the zero word. */
    constructor Null(n: Width)
      ensures markBits == n && inner == 0
      ensures IntoInner() == ConstPtr.MarkedPtr(0)
    {
      markBits := n;
      inner := 0;
    }

    /** `new`: a cell holding the word of `m`, which `into_inner` gives back. */
    constructor New(n: Width, m: ConstPtr.MarkedPtr)
      ensures markBits == n
      ensures IntoInner() == m
    {
      markBits := n;
      inner := m.inner;
    }

    /** `into_inner`: the marked pointer held, rebuilt with `from_usize`. */
    function IntoInner(): ConstPtr.MarkedPtr
      reads this
    {
      ConstPtr.MarkedPtr(inner)
    }

    /** `MARK_MASK`: the `N` low bits (the alignment check is that of MarkMask). */
    function MarkMask(): (r: Word)
      ensures r as int == Pow2(markBits as nat) - 1
    {
      MaskIsPow2Minus1(markBits);
      Mask(markBits)
    }

    /** `POINTER_MASK`: `!MARK_MASK`, every bit outside the mark. */
    function PointerMask(): (r: Word)
      ensures r & MarkMask() == 0 && r | MarkMask() == 0xFFFF_FFFF_FFFF_FFFF
    {
      !MarkMask()
    }

    /**
     * `load`: the marked pointer held. A release ordering (`Release` or
     * `AcqRel`) panics, as the atomic word's own `load` does.
     */
    method Load(order: Ordering) returns (r: Outcome<ConstPtr.MarkedPtr>)
      ensures r.Panics? <==> !LoadOrderOk(order)
      ensures r.Returns? ==> r.value == IntoInner()
    {
      if !LoadOrderOk(order) {
        r := Panics;
      } else {
        r := Returns(ConstPtr.MarkedPtr(inner));
      }
    }

    /**
     * `store`: replaces the word. An acquire ordering (`Acquire` or
     * `AcqRel`) panics before anything is stored.
     */
    method Store(ptr: ConstPtr.MarkedPtr, order: Ordering) returns (r: Outcome<()>)
      modifies this
      ensures r.Panics? <==> !StoreOrderOk(order)
      ensures IntoInner() == if r.Panics? then old(IntoInner()) else ptr
    {
      if !StoreOrderOk(order) {
        r := Panics;
      } else {
        inner := ptr.inner;
        r := Returns(());
      }
    }

    /** `swap`: replaces the word and returns the previous marked pointer. */
    method Swap(ptr: ConstPtr.MarkedPtr, order: Ordering) returns (previous: ConstPtr.MarkedPtr)
      modifies this
      ensures previous == old(IntoInner())
      ensures IntoInner() == ptr
    {
      previous := ConstPtr.MarkedPtr(inner);
      inner := ptr.inner;
    }

    /**
     * `compare_and_swap`: always returns the previous marked pointer; the
     * cell takes `replacement` exactly when that equals `current`.
     */
    method CompareAndSwap(current: ConstPtr.MarkedPtr, replacement: ConstPtr.MarkedPtr, order: Ordering)
      returns (previous: ConstPtr.MarkedPtr)
      modifies this
      ensures previous == old(IntoInner())
      ensures IntoInner() == if previous == current then replacement else previous
    {
      previous := ConstPtr.MarkedPtr(inner);
      if inner == current.inner {
        inner := replacement.inner;
      }
    }

    /**
     * `compare_exchange`: succeeds exactly when the cell holds `current`,
     * then stores `replacement` and returns the previous word (which is
     * `current`) in `Ok`; otherwise returns the observed marked pointer in
     * `Err` and leaves the cell alone. A failure ordering that is a release
     * ordering or stronger than the success ordering panics before the cell
     * is touched.
     */
    method CompareExchange(current: ConstPtr.MarkedPtr, replacement: ConstPtr.MarkedPtr, success: Ordering, failure: Ordering)
      returns (r: Outcome<Result<ConstPtr.MarkedPtr, ConstPtr.MarkedPtr>>)
      modifies this
      ensures r.Panics? <==> !FailureOrderOk(success, failure)
      ensures r.Panics? ==> IntoInner() == old(IntoInner())
      ensures r.Returns? ==> (r.value.Ok? <==> old(IntoInner()) == current)
      ensures r.Returns? && r.value.Ok? ==> r.value.value == old(IntoInner()) && r.value.value == current && IntoInner() == replacement
      ensures r.Returns? && r.value.Err? ==> r.value.error == old(IntoInner()) && IntoInner() == old(IntoInner())
    {
      var previous := inner;
      if !FailureOrderOk(success, failure) {
        r := Panics;
      } else if inner == current.inner {
        inner := replacement.inner;
        r := Returns(Ok(ConstPtr.MarkedPtr(previous)));
      } else {
        r := Returns(Err(ConstPtr.MarkedPtr(previous)));
      }
    }

    /**
     * `compare_exchange_weak`: like `compare_exchange`, except that it may
     * fail although the cell holds `current` (`spurious` says whether the
     * hardware lets it fail this time). It panics on the same orderings as
     * `compare_exchange`.
     */
    method CompareExchangeWeak(current: ConstPtr.MarkedPtr, replacement: ConstPtr.MarkedPtr, success: Ordering, failure: Ordering, spurious: bool)
      returns (r: Outcome<Result<ConstPtr.MarkedPtr, ConstPtr.MarkedPtr>>)
      modifies this
      ensures r.Panics? <==> !FailureOrderOk(success, failure)
      ensures r.Panics? ==> IntoInner() == old(IntoInner())
      ensures r.Returns? && r.value.Ok? ==> old(IntoInner()) == current && r.value.value == current && IntoInner() == replacement
      ensures r.Returns? && r.value.Err? ==> r.value.error == old(IntoInner()) && IntoInner() == old(IntoInner())
      ensures r.Returns? && !spurious ==> (r.value.Ok? <==> old(IntoInner()) == current)
    {
      var previous := inner;
      if !FailureOrderOk(success, failure) {
        r := Panics;
      } else if inner == current.inner && !spurious {
        inner := replacement.inner;
        r := Returns(Ok(ConstPtr.MarkedPtr(previous)));
      } else {
        r := Returns(Err(ConstPtr.MarkedPtr(previous)));
      }
    }

    /** `fetch_add`: wrapping addition on the whole word, returning the previous marked pointer. */
    method FetchAdd(value: Word, order: Ordering) returns (previous: ConstPtr.MarkedPtr)
      modifies this
      ensures previous == old(IntoInner())
      ensures inner == WrappingAdd(old(inner), value)
    {
      previous := ConstPtr.MarkedPtr(inner);
      inner := WrappingAdd(inner, value);
    }

    /** `fetch_sub`: wrapping subtraction on the whole word, returning the previous marked pointer. */
    method FetchSub(value: Word, order: Ordering) returns (previous: ConstPtr.MarkedPtr)
      modifies this
      ensures previous == old(IntoInner())
      ensures inner == WrappingSub(old(inner), value)
    {
      previous := ConstPtr.MarkedPtr(inner);
      inner := WrappingSub(inner, value);
    }

    /** `fetch_and` as written: and on the whole word, `value` unmasked. */
    method FetchAnd(value: Word, order: Ordering) returns (previous: ConstPtr.MarkedPtr)
      modifies this
      ensures previous == old(IntoInner())
      ensures inner == old(inner) & value
    {
      previous := ConstPtr.MarkedPtr(inner);
      inner := inner & value;
    }

    /** `fetch_nand` as written: nand on the whole word, `value` unmasked. */
    method FetchNand(value: Word, order: Ordering) returns (previous: ConstPtr.MarkedPtr)
      modifies this
      ensures previous == old(IntoInner())
      ensures inner == !(old(inner) & value)
    {
      previous := ConstPtr.MarkedPtr(inner);
      inner := !(inner & value);
    }

    /** `fetch_or` as written: or on the whole word, `value` unmasked. */
    method FetchOr(value: Word, order: Ordering) returns (previous: ConstPtr.MarkedPtr)
      modifies this
      ensures previous == old(IntoInner())
      ensures inner == old(inner) | value
    {
      previous := ConstPtr.MarkedPtr(inner);
      inner := inner | value;
    }

    /** `fetch_xor` as written: xor on the whole word, `value` unmasked. */
    method FetchXor(value: Word, order: Ordering) returns (previous: ConstPtr.MarkedPtr)
      modifies this
      ensures previous == old(IntoInner())
      ensures inner == old(inner) ^ value
    {
      previous := ConstPtr.MarkedPtr(inner);
      inner := inner ^ value;
    }
  }

  /*
   * The tag-only operations the documentation describes.
   */

  /** `nand` on the tag alone: the pointer half is kept, excess bits of `value` are ignored. */
  function TagNand(n: Width, w: Word, value: Word): (r: Word)
    ensures DecomposePtr(n, r) == DecomposePtr(n, w)
    ensures DecomposeTag(n, r) == !(DecomposeTag(n, w) & value) & Mask(n)
  {
    NandHalves(n, w, value);
    (w & !Mask(n)) | (Mask(n) & !(w & value))
  }

  /** `xor` on the tag alone: the pointer half is kept, excess bits of `value` are ignored. */
  function TagXor(n: Width, w: Word, value: Word): (r: Word)
    ensures DecomposePtr(n, r) == DecomposePtr(n, w)
    ensures DecomposeTag(n, r) == DecomposeTag(n, w) ^ (value & Mask(n))
  {
    XorHalves(n, w, value);
    w ^ (Mask(n) & value)
  }

  /*
   * When the unmasked operations keep the pointer.
   */

  /** The unmasked `and` keeps the pointer exactly when `value` has every bit of the pointer half set. */
  lemma UnmaskedAndKeepsPointerIff(n: Width, w: Word, value: Word)
    ensures DecomposePtr(n, w & value) == DecomposePtr(n, w) <==> DecomposePtr(n, w) & !value == 0
  {
    AndOutside(n, w, value);
    AndOutsideChanged(n, w, value);
  }

  /** The unmasked `or` keeps the pointer exactly when the pointer half of `value` is inside that of the word. */
  lemma UnmaskedOrKeepsPointerIff(n: Width, w: Word, value: Word)
    ensures DecomposePtr(n, w | value) == DecomposePtr(n, w) <==> DecomposePtr(n, value) & !w == 0
  {
    OrOutside(n, w, value);
    OrOutsideChanged(n, w, value);
  }

  /** The unmasked `xor` keeps the pointer exactly when `value` has a null pointer half. */
  lemma UnmaskedXorKeepsPointerIff(n: Width, w: Word, value: Word)
    ensures DecomposePtr(n, w ^ value) == DecomposePtr(n, w) <==> DecomposePtr(n, value) == 0
  {
    XorOutside(n, w, value);
    XorOutsideChanged(n, w, value);
  }

  /**
   * The unmasked `nand` keeps the pointer only when the pointer half of the
   * word is all ones and that of `value` is null: never for a real pointer.
   */
  lemma UnmaskedNandKeepsPointerIff(n: Width, w: Word, value: Word)
    ensures DecomposePtr(n, !(w & value)) == DecomposePtr(n, w) <==>
      DecomposePtr(n, w) == !Mask(n) && DecomposePtr(n, value) == 0
  {
    NandOutside(n, w, value);
  }

  /** With a value inside the tag, the unmasked `or` stores the same word as the tag-only one. */
  lemma FittingValueOrAgrees(n: Width, w: Word, value: Word)
    requires value & !Mask(n) == 0
    ensures w | value == AtomicPtr.TagOr(n, w, value)
  {
    assert AtomicPtr.TagOr(n, w, value) == w | (Mask(n) & value);
    AtomicPtr.MaskedValueIsTag(n, value);
    FittingTagIsKept(n, value);
  }

  /** With a value inside the tag, the unmasked `xor` stores the same word as the tag-only one. */
  lemma FittingValueXorAgrees(n: Width, w: Word, value: Word)
    requires value & !Mask(n) == 0
    ensures w ^ value == TagXor(n, w, value)
  {
    assert TagXor(n, w, value) == w ^ (Mask(n) & value);
    AtomicPtr.MaskedValueIsTag(n, value);
    FittingTagIsKept(n, value);
  }

  /**
   * Counterexamples with two mark bits: `fetch_and(0b11)` on the word
   * `0x1002` clears the pointer `0x1000`; `fetch_or(0x2000)` moves it to
   * `0x3000`; `fetch_xor(0x1000)` clears it; `fetch_nand(0b11)` turns it
   * into all ones. The tag-only operations keep `0x1000`.
   */
  lemma UnmaskedOperationsChangePointer()
    ensures DecomposePtr(2, 0x1002 & 3) == 0
    ensures DecomposePtr(2, 0x1002 | 0x2000) == 0x3000
    ensures DecomposePtr(2, 0x1002 ^ 0x1000) == 0
    ensures DecomposePtr(2, !(0x1002 & 3)) == 0xFFFF_FFFF_FFFF_FFFC
    ensures DecomposePtr(2, AtomicPtr.TagAnd(2, 0x1002, 3)) == 0x1000
    ensures DecomposePtr(2, AtomicPtr.TagOr(2, 0x1002, 0x2000)) == 0x1000
    ensures DecomposePtr(2, TagXor(2, 0x1002, 0x1000)) == 0x1000
    ensures DecomposePtr(2, TagNand(2, 0x1002, 3)) == 0x1000
  {
    assert Mask(2) == 3;
  }

  /*
   * Bit identities behind the lemmas above.
   */

  lemma XorHalves(n: Width, w: Word, value: Word)
    ensures DecomposePtr(n, w ^ (Mask(n) & value)) == DecomposePtr(n, w)
    ensures DecomposeTag(n, w ^ (Mask(n) & value)) == DecomposeTag(n, w) ^ (value & Mask(n))
  {
    XorInsideKeepsOutside(n, w, value);
    XorInsideFlipsInside(n, w, value);
  }

  lemma XorInsideKeepsOutside(n: Width, w: Word, value: Word)
    ensures (w ^ (Mask(n) & value)) & !Mask(n) == w & !Mask(n)
  {
  }

  lemma XorInsideFlipsInside(n: Width, w: Word, value: Word)
    ensures (w ^ (Mask(n) & value)) & Mask(n) == (w & Mask(n)) ^ (value & Mask(n))
  {
  }

  lemma AndOutside(n: Width, w: Word, value: Word)
    ensures (w & !Mask(n)) & !value == 0 ==> (w & value) & !Mask(n) == w & !Mask(n)
  {
  }

  lemma AndOutsideChanged(n: Width, w: Word, value: Word)
    ensures (w & value) & !Mask(n) == w & !Mask(n) ==> (w & !Mask(n)) & !value == 0
  {
  }

  lemma OrOutside(n: Width, w: Word, value: Word)
    ensures (value & !Mask(n)) & !w == 0 ==> (w | value) & !Mask(n) == w & !Mask(n)
  {
  }

  lemma OrOutsideChanged(n: Width, w: Word, value: Word)
    ensures (w | value) & !Mask(n) == w & !Mask(n) ==> (value & !Mask(n)) & !w == 0
  {
  }

  lemma XorOutside(n: Width, w: Word, value: Word)
    ensures value & !Mask(n) == 0 ==> (w ^ value) & !Mask(n) == w & !Mask(n)
  {
  }

  lemma XorOutsideChanged(n: Width, w: Word, value: Word)
    ensures (w ^ value) & !Mask(n) == w & !Mask(n) ==> value & !Mask(n) == 0
  {
  }

  lemma NandHalves(n: Width, w: Word, value: Word)
    ensures DecomposePtr(n, (w & !Mask(n)) | (Mask(n) & !(w & value))) == DecomposePtr(n, w)
    ensures DecomposeTag(n, (w & !Mask(n)) | (Mask(n) & !(w & value))) == !(DecomposeTag(n, w) & value) & Mask(n)
  {
    NandKeepsOutside(n, w, value);
    NandSetsInside(n, w, value);
  }

  lemma NandKeepsOutside(n: Width, w: Word, value: Word)
    ensures ((w & !Mask(n)) | (Mask(n) & !(w & value))) & !Mask(n) == w & !Mask(n)
  {
  }

  lemma NandSetsInside(n: Width, w: Word, value: Word)
    ensures ((w & !Mask(n)) | (Mask(n) & !(w & value))) & Mask(n) == !((w & Mask(n)) & value) & Mask(n)
  {
  }

  lemma NandOutside(n: Width, w: Word, value: Word)
    ensures !(w & value) & !Mask(n) == w & !Mask(n) <==> w & !Mask(n) == !Mask(n) && value & !Mask(n) == 0
  {
  }
}

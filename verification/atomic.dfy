/**
 * `AtomicMarkedPtr<T, N>` of src/imp/atomic.rs: one atomic word holding a
 * `MarkedPtr<T, N>` (ConstPtr) with `N` tag bits.
 *
 * The cell is modelled sequentially: each operation is one atomic step on
 * the word. Memory orderings only matter through the panics of the
 * underlying `AtomicUsize`, which the methods return as `Panics`.
 */
module AtomicPtr {

  import opened RustCore
  import opened Codec
  import ConstPtr

  /**
   * The word `fetch_or` stores: the or of the word with the value masked by
   * `TAG_MASK`. The pointer half never changes; the value's tag bits are
   * added to the tag.
   */
  function TagOr(n: Width, w: Word, value: Word): (r: Word)
    ensures DecomposePtr(n, r) == DecomposePtr(n, w)
    ensures DecomposeTag(n, r) == DecomposeTag(n, w) | (value & Mask(n))
  {
    OrHalves(n, w, value);
    w | (Mask(n) & value)
  }

  /**
   * The word `fetch_and` stores: the and of the word with `POINTER_MASK |
   * value`. The pointer half never changes; the tag is and-ed with the value.
   */
  function TagAnd(n: Width, w: Word, value: Word): (r: Word)
    ensures DecomposePtr(n, r) == DecomposePtr(n, w)
    ensures DecomposeTag(n, r) == DecomposeTag(n, w) & value
  {
    AndHalves(n, w, value);
    w & (!Mask(n) | value)
  }

  /** `AtomicMarkedPtr<T, N>`: an atomic cell holding a marked pointer word. */
  class AtomicMarkedPtr {
    /** `TAG_BITS`, the `N` of the type. */
    const tagBits: Width
    var inner: Word

    /** `null` (and `Default`): a cell holding the zero word. */
    constructor Null(n: Width)
      ensures tagBits == n && inner == 0
      ensures IntoInner() == ConstPtr.MarkedPtr(0)
    {
      tagBits := n;
      inner := 0;
    }

    /** `new`: a cell holding the word of `m`, which `into_inner` gives back. */
    constructor New(n: Width, m: ConstPtr.MarkedPtr)
      ensures tagBits == n
      ensures IntoInner() == m
    {
      tagBits := n;
      inner := m.inner;
    }

    /** `into_inner`: the marked pointer held, rebuilt with `from_usize`. */
    function IntoInner(): ConstPtr.MarkedPtr
      reads this
    {
      ConstPtr.MarkedPtr(inner)
    }

    /** `TAG_MASK`: the `N` low bits (the alignment check is that of MarkMask). */
    function TagMask(): (r: Word)
      ensures r as int == Pow2(tagBits as nat) - 1
    {
      MaskIsPow2Minus1(tagBits);
      Mask(tagBits)
    }

    /** `POINTER_MASK`: `!TAG_MASK`. */
    function PointerMask(): (r: Word)
      ensures r & TagMask() == 0 && r | TagMask() == 0xFFFF_FFFF_FFFF_FFFF
    {
      !TagMask()
    }

    /**
     * `load`: the marked pointer held. A release ordering (`Release` or
     * `AcqRel`) panics, as the atomic word's own `load` does.
     */
    method Load(order: Ordering) returns (r: Outcome<ConstPtr.MarkedPtr>)
      ensures r.Panics? <==> !LoadOrderOk(order)
      ensures r.Returns? ==> r.value == IntoInner()
    {
      if !LoadOrderOk(order) {
        r := Panics;
      } else {
        r := Returns(ConstPtr.MarkedPtr(inner));
      }
    }

    /**
     * `store`: replaces the word. An acquire ordering (`Acquire` or
     * `AcqRel`) panics before anything is stored.
     */
    method Store(ptr: ConstPtr.MarkedPtr, order: Ordering) returns (r: Outcome<()>)
      modifies this
      ensures r.Panics? <==> !StoreOrderOk(order)
      ensures IntoInner() == if r.Panics? then old(IntoInner()) else ptr
    {
      if !StoreOrderOk(order) {
        r := Panics;
      } else {
        inner := ptr.inner;
        r := Returns(());
      }
    }

    /** `swap`: replaces the word and returns the previous marked pointer. */
    method Swap(ptr: ConstPtr.MarkedPtr, order: Ordering) returns (previous: ConstPtr.MarkedPtr)
      modifies this
      ensures previous == old(IntoInner())
      ensures IntoInner() == ptr
    {
      previous := ConstPtr.MarkedPtr(inner);
      inner := ptr.inner;
    }

    /**
     * `compare_and_swap`: always returns the previous marked pointer; the
     * cell takes `replacement` exactly when that equals `current`.
     */
    method CompareAndSwap(current: ConstPtr.MarkedPtr, replacement: ConstPtr.MarkedPtr, order: Ordering)
      returns (previous: ConstPtr.MarkedPtr)
      modifies this
      ensures previous == old(IntoInner())
      ensures IntoInner() == if previous == current then replacement else previous
    {
      previous := ConstPtr.MarkedPtr(inner);
      if inner == current.inner {
        inner := replacement.inner;
      }
    }

    /**
     * `compare_exchange`: succeeds exactly when the cell holds `current`,
     * then stores `replacement` and returns `Ok(current)`; otherwise returns the
     * observed marked pointer in `Err` and leaves the cell alone. A failure
     * ordering that is a release ordering or stronger than the success
     * ordering panics before the cell is touched.
     */
    method CompareExchange(current: ConstPtr.MarkedPtr, replacement: ConstPtr.MarkedPtr, success: Ordering, failure: Ordering)
      returns (r: Outcome<Result<ConstPtr.MarkedPtr, ConstPtr.MarkedPtr>>)
      modifies this
      ensures r.Panics? <==> !FailureOrderOk(success, failure)
      ensures r.Panics? ==> IntoInner() == old(IntoInner())
      ensures r.Returns? ==> (r.value.Ok? <==> old(IntoInner()) == current)
      ensures r.Returns? && r.value.Ok? ==> r.value.value == current && IntoInner() == replacement
      ensures r.Returns? && r.value.Err? ==> r.value.error == old(IntoInner()) && IntoInner() == old(IntoInner())
    {
      if !FailureOrderOk(success, failure) {
        r := Panics;
      } else if inner == current.inner {
        inner := replacement.inner;
        r := Returns(Ok(current));
      } else {
        r := Returns(Err(ConstPtr.MarkedPtr(inner)));
      }
    }

    /**
     * `compare_exchange_weak`: like `compare_exchange`, except that it may
     * fail although the cell holds `current` (`spurious` says whether the
     * hardware lets it fail this time). A success is always a true one. It
     * panics on the same orderings as `compare_exchange`.
     */
    method CompareExchangeWeak(current: ConstPtr.MarkedPtr, replacement: ConstPtr.MarkedPtr, success: Ordering, failure: Ordering, spurious: bool)
      returns (r: Outcome<Result<ConstPtr.MarkedPtr, ConstPtr.MarkedPtr>>)
      modifies this
      ensures r.Panics? <==> !FailureOrderOk(success, failure)
      ensures r.Panics? ==> IntoInner() == old(IntoInner())
      ensures r.Returns? && r.value.Ok? ==> old(IntoInner()) == current && r.value.value == current && IntoInner() == replacement
      ensures r.Returns? && r.value.Err? ==> r.value.error == old(IntoInner()) && IntoInner() == old(IntoInner())
      ensures r.Returns? && !spurious ==> (r.value.Ok? <==> old(IntoInner()) == current)
    {
      if !FailureOrderOk(success, failure) {
        r := Panics;
      } else if inner == current.inner && !spurious {
        inner := replacement.inner;
        r := Returns(Ok(current));
      } else {
        r := Returns(Err(ConstPtr.MarkedPtr(inner)));
      }
    }

    /**
     * `fetch_add`: wrapping addition on the whole word, returning the
     * previous marked pointer; `value` must be below `TAG_MASK` (a debug
     * assertion).
     */
    method FetchAdd(value: Word, order: Ordering) returns (previous: ConstPtr.MarkedPtr)
      requires value < TagMask()
      modifies this
      ensures previous == old(IntoInner())
      ensures inner == WrappingAdd(old(inner), value)
    {
      previous := ConstPtr.MarkedPtr(inner);
      inner := WrappingAdd(inner, value);
    }

    /**
     * `fetch_sub`: wrapping subtraction on the whole word, returning the
     * previous marked pointer; `value` must be below `TAG_MASK` (a debug
     * assertion).
     */
    method FetchSub(value: Word, order: Ordering) returns (previous: ConstPtr.MarkedPtr)
      requires value < TagMask()
      modifies this
      ensures previous == old(IntoInner())
      ensures inner == WrappingSub(old(inner), value)
    {
      previous := ConstPtr.MarkedPtr(inner);
      inner := WrappingSub(inner, value);
    }

    /** `fetch_or`: or-s the tag bits of `value` into the tag, returning the previous marked pointer. */
    method FetchOr(value: Word, order: Ordering) returns (previous: ConstPtr.MarkedPtr)
      modifies this
      ensures previous == old(IntoInner())
      ensures inner == TagOr(tagBits, old(inner), value)
    {
      previous := ConstPtr.MarkedPtr(inner);
      inner := TagOr(tagBits, inner, value);
    }

    /** `fetch_and`: and-s `value` into the tag, returning the previous marked pointer. */
    method FetchAnd(value: Word, order: Ordering) returns (previous: ConstPtr.MarkedPtr)
      modifies this
      ensures previous == old(IntoInner())
      ensures inner == TagAnd(tagBits, old(inner), value)
    {
      previous := ConstPtr.MarkedPtr(inner);
      inner := TagAnd(tagBits, inner, value);
    }
  }

  /*
   * Bit identities behind TagOr and TagAnd.
   */

  lemma MaskedValueIsTag(n: Width, value: Word)
    ensures (Mask(n) & value) & !Mask(n) == 0
    ensures Mask(n) & value == value & Mask(n)
  {
  }

  lemma AndKeepsOutside(n: Width, w: Word, value: Word)
    ensures (w & (!Mask(n) | value)) & !Mask(n) == w & !Mask(n)
  {
  }

  lemma OrHalves(n: Width, w: Word, value: Word)
    ensures DecomposePtr(n, w | (Mask(n) & value)) == DecomposePtr(n, w)
    ensures DecomposeTag(n, w | (Mask(n) & value)) == DecomposeTag(n, w) | (value & Mask(n))
  {
    MaskedValueIsTag(n, value);
    SetTagBitsKeepsPtr(n, w, Mask(n) & value);
    SetTagBitsAddsToTag(n, w, Mask(n) & value);
  }

  lemma AndHalves(n: Width, w: Word, value: Word)
    ensures DecomposePtr(n, w & (!Mask(n) | value)) == DecomposePtr(n, w)
    ensures DecomposeTag(n, w & (!Mask(n) | value)) == DecomposeTag(n, w) & value
  {
    AndKeepsOutside(n, w, value);
    AndMasksInside(n, w, value);
  }

  lemma AndMasksInside(n: Width, w: Word, value: Word)
    ensures DecomposeTag(n, w & (!Mask(n) | value)) == DecomposeTag(n, w) & value
  {
  }

  /*
   * Properties.
   */

  /**
   * A `store` followed by a `load` panics exactly when one of the two
   * orderings is refused, and otherwise returns what was stored.
   */
  method StoreThenLoad(cell: AtomicMarkedPtr, ptr: ConstPtr.MarkedPtr, storeOrder: Ordering, loadOrder: Ordering)
    returns (r: Outcome<ConstPtr.MarkedPtr>)
    modifies cell
    ensures r.Panics? <==> !StoreOrderOk(storeOrder) || !LoadOrderOk(loadOrder)
    ensures r.Returns? ==> r.value == ptr
  {
    var stored := cell.Store(ptr, storeOrder);
    if stored.Panics? {
      r := Panics;
    } else {
      r := cell.Load(loadOrder);
    }
  }

  /**
   * `fetch_and` with the complement of tag bits that `fetch_or` has just set
   * (and that were clear before) restores the word.
   */
  lemma TagAndUndoesTagOr(n: Width, w: Word, value: Word)
    requires value & !Mask(n) == 0
    requires DecomposeTag(n, w) & value == 0
    ensures TagAnd(n, TagOr(n, w, value), !value) == w
  {
    var r := TagAnd(n, TagOr(n, w, value), !value);
    FittingTagIsKept(n, value);
    SetThenClearRestores(DecomposeTag(n, w), value);
    HalvesDetermineWord(n, r, w);
  }

  /**
   * `fetch_add` of tag bits that are clear in the tag cannot carry into the
   * pointer: it stores the same word as `fetch_or` of those bits.
   */
  lemma AddOfClearTagBitsIsOr(n: Width, w: Word, value: Word)
    requires value & !Mask(n) == 0
    requires DecomposeTag(n, w) & value == 0
    ensures WrappingAdd(w, value) == TagOr(n, w, value)
  {
    ClearTagBitsAreClear(n, w, value);
    CarryFreeSum(w, value);
    FittingTagIsKept(n, value);
    MaskedValueIsTag(n, value);
    assert TagOr(n, w, value) == w | value;
  }
}

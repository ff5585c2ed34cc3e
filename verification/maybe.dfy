/**
 * `MaybeNull<P>` of src/imp/maybe.rs: either a non-null pointer `P`, or a
 * null pointer that still remembers its tag. The plain combinators work for
 * any `P`; the marked operations are those of `P = MarkedNonNull<T, N>`
 * (NonNullPtr), whose conversions go to and from the nullable
 * `MarkedPtr<T, N>` (ConstPtr).
 */
module MaybeNulls {

  import opened RustCore
  import opened Codec
  import ConstPtr
  import NonNullPtr

  /** `MaybeNull<P>`: a non-null pointer, or a null pointer with its tag. */
  datatype MaybeNull<P> = NotNull(ptr: P) | Null(tag: Word)

  /*
   * Combinators for any non-null pointer type.
   */

  /** `is_null`: the exact complement of `is_not_null`. */
  function IsNull<P>(o: MaybeNull<P>): (r: bool)
    ensures r == !IsNotNull(o)
  {
    match o
    case NotNull(_) => false
    case Null(_) => true
  }

  /** `is_not_null`: holds exactly for the `NotNull` variant. */
  function IsNotNull<P>(o: MaybeNull<P>): (r: bool)
    ensures r <==> o.NotNull?
  {
    match o
    case NotNull(_) => true
    case Null(_) => false
  }

  /**
   * `not_null` (and `From<MaybeNull<P>> for Option<P>`): the pointer, if
   * any; the tag of a null is dropped.
   */
  function NotNullOption<P>(o: MaybeNull<P>): (r: Option<P>)
    ensures r.Some? <==> IsNotNull(o)
    ensures r.Some? ==> o == NotNull(r.value)
  {
    match o
    case NotNull(ptr) => Some(ptr)
    case _ => None
  }

  /** `expect`: `not_null().expect(msg)`, the pointer, or a panic on a null. */
  function Expect<P>(o: MaybeNull<P>): (r: Outcome<P>)
    ensures r.Panics? <==> IsNull(o)
    ensures r.Returns? ==> o == NotNull(r.value)
  {
    match NotNullOption(o)
    case Some(ptr) => Returns(ptr)
    case None => Panics
  }

  /** `unwrap`: the pointer, or a panic on a null; it agrees with `expect`. */
  function Unwrap<P>(o: MaybeNull<P>): (r: Outcome<P>)
    ensures r == Expect(o)
    ensures r.Panics? <==> IsNull(o)
  {
    match o
    case NotNull(ptr) => Returns(ptr)
    case _ => Panics
  }

  /** `unwrap_or_else`: the pointer, or `func` applied to the tag of a null. */
  function UnwrapOrElse<P>(o: MaybeNull<P>, func: Word -> P): (r: P)
    ensures Unwrap(o).Returns? ==> r == Unwrap(o).value
    ensures Unwrap(o).Panics? ==> r == func(DecomposeNullTag(o))
  {
    match o
    case NotNull(ptr) => ptr
    case Null(tag) => func(tag)
  }

  /** `unwrap_null`: the tag of a null, or a panic on a pointer. */
  function UnwrapNull<P>(o: MaybeNull<P>): (r: Outcome<Word>)
    ensures r.Panics? <==> IsNotNull(o)
    ensures r.Returns? ==> o == Null(r.value)
  {
    match o
    case Null(tag) => Returns(tag)
    case _ => Panics
  }

  /** The tag a null carries, 0 for a pointer (a helper for the contracts). */
  function DecomposeNullTag<P>(o: MaybeNull<P>): Word
  {
    match o
    case NotNull(_) => 0
    case Null(tag) => tag
  }

  /**
   * `map`: applies `func` to a pointer and leaves a null, tag included,
   * untouched; the variant never changes.
   */
  function Map<P, U>(o: MaybeNull<P>, func: P -> U): (r: MaybeNull<U>)
    ensures IsNull(r) == IsNull(o)
    ensures o.Null? ==> r == Null(o.tag)
    ensures NotNullOption(r) == (if o.NotNull? then Some(func(o.ptr)) else None)
  {
    match o
    case NotNull(ptr) => NotNull(func(ptr))
    case Null(tag) => Null(tag)
  }

  /** `map_or_else`: `func` of a pointer, or `default` of the tag of a null; `map` then `unwrap_or_else`. */
  function MapOrElse<P, U>(o: MaybeNull<P>, default: Word -> U, func: P -> U): (r: U)
    ensures r == UnwrapOrElse(Map(o, func), default)
  {
    match o
    case NotNull(ptr) => func(ptr)
    case Null(tag) => default(tag)
  }

  /** `map_or`: `func` of a pointer, or `default` for any null; `map_or_else` with a constant default. */
  function MapOr<P, U>(o: MaybeNull<P>, default: U, func: P -> U): (r: U)
    ensures r == MapOrElse(o, _ => default, func)
  {
    match o
    case NotNull(ptr) => func(ptr)
    case Null(_) => default
  }

  /** `Default`: an untagged null. */
  function Default<P>(): (r: MaybeNull<P>)
    ensures IsNull(r) && UnwrapNull(r) == Returns(0)
  {
    Null(0)
  }

  /** `From<Option<P>>`: a pointer stays a pointer, `None` becomes an untagged null. */
  function FromOption<P>(opt: Option<P>): (r: MaybeNull<P>)
    ensures NotNullOption(r) == opt
    ensures opt.None? ==> r == Default()
  {
    match opt
    case Some(ptr) => NotNull(ptr)
    case None => Null(0)
  }

  /*
   * Marked operations, for `P = MarkedNonNull<T, N>` with `n` tag bits.
   */

  /** Every pointer held satisfies the non-null invariant. */
  predicate Valid(n: Width, o: MaybeNull<NonNullPtr.MarkedNonNull>)
  {
    o.NotNull? ==> NonNullPtr.Valid(n, o.ptr)
  }

  /**
   * `as_marked_ptr` and `into_marked_ptr`: the pointer's own word, or a null
   * composed with the tag, which `compose` truncates to `n` bits.
   */
  function IntoMarkedPtr(n: Width, o: MaybeNull<NonNullPtr.MarkedNonNull>): (r: ConstPtr.MarkedPtr)
    ensures Valid(n, o) ==> (ConstPtr.IsNull(n, r) <==> IsNull(o))
    ensures o.NotNull? ==> r == NonNullPtr.IntoMarkedPtr(o.ptr)
    ensures o.Null? ==> ConstPtr.DecomposeTag(n, r) == o.tag & Mask(n)
  {
    match o
    case NotNull(ptr) => NonNullPtr.IntoMarkedPtr(ptr)
    case Null(tag) => ConstPtr.Join(n, 0, tag)
  }

  /**
   * `From<MarkedPtr<T, N>>`: a pointer exactly when the marked pointer's
   * pointer half is non-null (then the same word), otherwise a null with the
   * marked pointer's tag.
   */
  function FromMarkedPtr(n: Width, m: ConstPtr.MarkedPtr): (r: MaybeNull<NonNullPtr.MarkedNonNull>)
    ensures r.NotNull? <==> !ConstPtr.IsNull(n, m)
    ensures r.Null? ==> r.tag == ConstPtr.DecomposeTag(n, m)
    ensures r.NotNull? ==> r.ptr.inner == m.inner
    ensures Valid(n, r)
  {
    var (ptr, tag) := ConstPtr.Decompose(n, m);
    NonNullPtr.NullHasNullPointer(n);
    if ptr != 0 then NotNull(NonNullPtr.NewUnchecked(m)) else Null(tag)
  }

  /** `clear_tag`: a pointer loses its tag, a null becomes an untagged null. */
  function ClearTag(n: Width, o: MaybeNull<NonNullPtr.MarkedNonNull>): (r: MaybeNull<NonNullPtr.MarkedNonNull>)
    requires Valid(n, o)
    ensures Valid(n, r) && IsNull(r) == IsNull(o)
    ensures DecomposePtr(n, r) == DecomposePtr(n, o)
    ensures DecomposeTag(n, r) == 0
  {
    match o
    case NotNull(ptr) => NotNull(NonNullPtr.ClearTag(n, ptr))
    case Null(_) => Null(0)
  }

  /** `split_tag`: the value with its tag cleared, and the tag. */
  function SplitTag(n: Width, o: MaybeNull<NonNullPtr.MarkedNonNull>): (r: (MaybeNull<NonNullPtr.MarkedNonNull>, Word))
    requires Valid(n, o)
    ensures r.0 == ClearTag(n, o) && r.1 == DecomposeTag(n, o)
  {
    match o
    case NotNull(ptr) =>
      var (ptr', tag) := NonNullPtr.SplitTag(n, ptr);
      (NotNull(ptr'), tag)
    case Null(tag) => (Null(0), tag)
  }

  /**
   * `set_tag`: the same pointer with the tag `tag & mask`, or a null with
   * `tag` untruncated; both give the same marked pointer.
   */
  function SetTag(n: Width, o: MaybeNull<NonNullPtr.MarkedNonNull>, tag: Word): (r: MaybeNull<NonNullPtr.MarkedNonNull>)
    requires Valid(n, o)
    ensures Valid(n, r) && IsNull(r) == IsNull(o)
    ensures DecomposePtr(n, r) == DecomposePtr(n, o)
    ensures o.Null? ==> r == Null(tag)
    ensures ConstPtr.DecomposeTag(n, IntoMarkedPtr(n, r)) == tag & Mask(n)
  {
    match o
    case NotNull(ptr) =>
      SetPointerTag(n, ptr, tag);
      NotNull(NonNullPtr.SetTag(n, ptr, tag))
    case Null(_) => Null(tag)
  }

  /** `set_tag` on a pointer, seen through the `MaybeNull` projections. */
  lemma SetPointerTag(n: Width, ptr: NonNullPtr.MarkedNonNull, tag: Word)
    requires NonNullPtr.Valid(n, ptr)
    ensures Valid(n, NotNull(NonNullPtr.SetTag(n, ptr, tag)))
    ensures DecomposePtr(n, NotNull(NonNullPtr.SetTag(n, ptr, tag))) == DecomposePtr(n, NotNull(ptr))
    ensures ConstPtr.DecomposeTag(n, IntoMarkedPtr(n, NotNull(NonNullPtr.SetTag(n, ptr, tag)))) == tag & Mask(n)
  {
    NonNullPtr.MarkedPtrHalves(n, NonNullPtr.SetTag(n, ptr, tag));
  }

  /** `decompose`: the pointer with its tag cleared (if any), and the tag. */
  function Decompose(n: Width, o: MaybeNull<NonNullPtr.MarkedNonNull>): (r: (Option<NonNullPtr.MarkedNonNull>, Word))
    requires Valid(n, o)
    ensures r.0 == NotNullOption(ClearTag(n, o))
    ensures r.1 == DecomposeTag(n, o)
  {
    match o
    case NotNull(ptr) =>
      var (ptr', tag) := NonNullPtr.SplitTag(n, ptr);
      (Some(ptr'), tag)
    case Null(tag) => (None, tag)
  }

  /** `decompose_ptr`: the pointer half, null for a null; that of the marked pointer. */
  function DecomposePtr(n: Width, o: MaybeNull<NonNullPtr.MarkedNonNull>): (r: Word)
    ensures r == ConstPtr.DecomposePtr(n, IntoMarkedPtr(n, o))
    ensures Valid(n, o) ==> (r == 0 <==> IsNull(o))
  {
    match o
    case NotNull(ptr) =>
      NonNullPtr.MarkedPtrHalves(n, ptr);
      NonNullPtr.DecomposePtr(n, ptr)
    case Null(_) => 0
  }

  /** `decompose_tag`: the tag, whose low `n` bits are the marked pointer's tag. */
  function DecomposeTag(n: Width, o: MaybeNull<NonNullPtr.MarkedNonNull>): (r: Word)
    ensures r & Mask(n) == ConstPtr.DecomposeTag(n, IntoMarkedPtr(n, o))
    ensures o.NotNull? ==> r == ConstPtr.DecomposeTag(n, IntoMarkedPtr(n, o))
    ensures o.NotNull? ==> r & !Mask(n) == 0
    ensures o.Null? ==> r == o.tag
  {
    match o
    case NotNull(ptr) =>
      TagHalfIsMasked(n, ptr.inner);
      HalvesDisjointInMask(n, ptr.inner);
      NonNullPtr.MarkedPtrHalves(n, ptr);
      NonNullPtr.DecomposeTag(n, ptr)
    case Null(tag) => tag
  }

  /** A place holding a `MaybeNull`, for the operations taking `&mut self`. */
  class MaybeNullCell<P> {
    var current: MaybeNull<P>

    constructor (initial: MaybeNull<P>)
      ensures current == initial
    {
      current := initial;
    }

    /** `take`: returns the previous contents and leaves an untagged null behind. */
    method Take() returns (previous: MaybeNull<P>)
      modifies this
      ensures previous == old(current)
      ensures current == Default()
    {
      previous := current;
      current := Null(0);
    }

    /** `replace`: returns the previous contents and leaves `value` behind. */
    method Replace(value: P) returns (previous: MaybeNull<P>)
      modifies this
      ensures previous == old(current)
      ensures current == NotNull(value) && NotNullOption(current) == Some(value)
    {
      previous := current;
      current := NotNull(value);
    }
  }

  /*
   * Properties.
   */

  /** `From<Option>` and `not_null` are inverse on pointers and on the untagged null. */
  lemma OptionRoundTrip<P>(o: MaybeNull<P>)
    requires o.NotNull? || o == Default()
    ensures FromOption(NotNullOption(o)) == o
  {
  }

  /**
   * Converting a marked pointer to a `MaybeNull` and back gives the same
   * word: a marked null keeps its tag.
   */
  lemma MarkedPtrRoundTrip(n: Width, m: ConstPtr.MarkedPtr)
    ensures IntoMarkedPtr(n, FromMarkedPtr(n, m)) == m
  {
    var o := FromMarkedPtr(n, m);
    if o.Null? {
      var back := IntoMarkedPtr(n, o);
      TagHalfIsMasked(n, m.inner);
      HalvesDetermineWord(n, back.inner, m.inner);
    }
  }

  /**
   * A valid `MaybeNull` whose null tag fits in `n` bits survives the trip
   * through a marked pointer.
   */
  lemma MaybeNullRoundTrip(n: Width, o: MaybeNull<NonNullPtr.MarkedNonNull>)
    requires Valid(n, o)
    requires o.Null? ==> o.tag & !Mask(n) == 0
    ensures FromMarkedPtr(n, IntoMarkedPtr(n, o)) == o
  {
    if o.Null? {
      FittingTagIsKept(n, o.tag);
    }
  }

  /**
   * `From<MarkedPtr>` and `MarkedNonNull::new` agree: a pointer exactly when
   * `new` succeeds, otherwise a null whose tag is the one `new` reports.
   */
  lemma AgreesWithNonNullNew(n: Width, m: ConstPtr.MarkedPtr)
    ensures FromMarkedPtr(n, m).NotNull? <==> NonNullPtr.New(n, m).Ok?
    ensures FromMarkedPtr(n, m).NotNull? ==> FromMarkedPtr(n, m).ptr == NonNullPtr.New(n, m).value
    ensures FromMarkedPtr(n, m).Null? ==> NonNullPtr.New(n, m) == Err(NonNullPtr.Null(FromMarkedPtr(n, m).tag))
  {
  }

  /** On a null, `split_tag` returns the tag and an untagged null. */
  lemma SplitNull(n: Width, tag: Word)
    ensures SplitTag(n, Null(tag)) == (Null(0), tag)
    ensures DecomposePtr(n, Null(tag)) == 0 && DecomposeTag(n, Null(tag)) == tag
    ensures IntoMarkedPtr(n, Null(tag)) == ConstPtr.Join(n, 0, tag)
  {
  }
}

/**
 * `MarkedOption` (declared in src/lib.rs, implemented in src/option.rs): an
 * optional non-null pointer that, when it is absent, still remembers the tag
 * of the marked null pointer it came from.
 */
module MarkedOptions {

  import opened RustCore
  import opened Codec

  /** `MarkedOption<T>`: a non-null value, or a null pointer with its tag. */
  datatype MarkedOption<T> = Value(value: T) | Null(tag: Word)

  /** `Default`: an untagged null. */
  function Default<T>(): (r: MarkedOption<T>)
    ensures IsNull(r)
    ensures r.Null? && r.tag == 0
  {
    Null(0)
  }

  /** `is_null`: the exact complement of `is_value`. */
  function IsNull<T>(o: MarkedOption<T>): (r: bool)
    ensures r == !IsValue(o)
  {
    match o
    case Value(_) => false
    case Null(_) => true
  }

  /** `is_value`: holds exactly for the `Value` variant. */
  function IsValue<T>(o: MarkedOption<T>): (r: bool)
    ensures r <==> o.Value?
  {
    match o
    case Value(_) => true
    case Null(_) => false
  }

  /**
   * `map`: applies `func` to a value and leaves a null, tag included,
   * untouched; the variant never changes.
   */
  function Map<T, U>(o: MarkedOption<T>, func: T -> U): (r: MarkedOption<U>)
    ensures IsNull(r) == IsNull(o)
    ensures o.Null? ==> r == Null(o.tag)
    ensures o.Value? ==> r == Value(func(o.value))
  {
    match o
    case Value(ptr) => Value(func(ptr))
    case Null(tag) => Null(tag)
  }

  /** `unwrap`: the value, or a panic on a null. */
  function Unwrap<T>(o: MarkedOption<T>): (r: Outcome<T>)
    ensures r.Panics? <==> IsNull(o)
    ensures r.Returns? ==> o == Value(r.value)
  {
    match o
    case Value(value) => Returns(value)
    case Null(_) => Panics
  }

  /** A place holding a `MarkedOption`, for the operations taking `&mut self`. */
  class MarkedOptionCell<T> {
    var current: MarkedOption<T>

    constructor (initial: MarkedOption<T>)
      ensures current == initial
    {
      current := initial;
    }

    /** `take`: returns the previous contents and leaves the default behind. */
    method Take() returns (previous: MarkedOption<T>)
      modifies this
      ensures previous == old(current)
      ensures current == Default()
    {
      previous := current;
      current := Null(0);
    }
  }
}

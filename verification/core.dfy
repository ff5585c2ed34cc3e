/**
 * The pieces of Rust's `core` library that the marked pointer types are
 * built from: `Option`, `Result`, a panicking return, and the memory
 * orderings of `core::sync::atomic`.
 *
 * The orderings follow the C++11 memory model, ISO/IEC 14882:2011 (clause
 * 29.3 for `memory_order`, clause 29.6.5 for compare-exchange): a load may not
 * be a release operation, a store may not be an acquire operation, and the
 * ordering a compare-exchange uses when it fails (a plain load) may be
 * neither a release ordering nor stronger than the ordering it uses when it
 * succeeds. The atomic types panic when given an ordering these rules
 * exclude; the model returns `Panics` there.
 */
module RustCore {

  /**
   * `u64`, and a pointer's address read as one: a 64-bit word taken as an
   * unsigned number, for the types that compare and combine words but never
   * mask or shift them.
   */
  type U64 = x: int | 0 <= x < 0x1_0000_0000_0000_0000

  datatype Option<T> = None | Some(value: T)

  datatype Result<T, E> = Ok(value: T) | Err(error: E)

  /** The result of a call that can panic: it either returns a value or panics. */
  datatype Outcome<T> = Returns(value: T) | Panics

  /** `core::cmp::Ordering`: the result of a total comparison. */
  datatype CmpOrdering = Less | Equal | Greater

  /** `core::sync::atomic::Ordering`. */
  datatype Ordering = Relaxed | Release | Acquire | AcqRel | SeqCst

  /** Orderings an atomic load accepts: not `Release`, not `AcqRel`. */
  predicate LoadOrderOk(order: Ordering)
  {
    order != Release && order != AcqRel
  }

  /** Orderings an atomic store accepts: not `Acquire`, not `AcqRel`. */
  predicate StoreOrderOk(order: Ordering)
  {
    order != Acquire && order != AcqRel
  }

  /**
   * The strength of the load part of an ordering: `Relaxed` and `Release`
   * acquire nothing, `Acquire` and `AcqRel` acquire, `SeqCst` is strongest.
   */
  function LoadStrength(order: Ordering): (r: nat)
    ensures r <= 2
    ensures r == 0 <==> order == Relaxed || order == Release
    ensures r == 2 <==> order == SeqCst
  {
    match order
    case Relaxed => 0
    case Release => 0
    case Acquire => 1
    case AcqRel => 1
    case SeqCst => 2
  }

  /**
   * Failure orderings a compare-exchange accepts for a given success
   * ordering: a load ordering whose strength does not exceed the load part of
   * the success ordering.
   */
  predicate FailureOrderOk(success: Ordering, failure: Ordering)
  {
    LoadOrderOk(failure) && LoadStrength(failure) <= LoadStrength(success)
  }

  /** `Relaxed` is an acceptable failure ordering for every success ordering. */
  lemma RelaxedFailureAlwaysOk(success: Ordering)
    ensures FailureOrderOk(success, Relaxed)
  {
  }
}

/**
 * The 128-bit marked pointer of src/x86_64.rs: `MarkedPtr128<T>`, a
 * pointer with a full 64-bit tag in the word after it, and
 * `AtomicMarkedPtr128<T>`, a cell of two words updated together by the
 * x86-64 `cmpxchg16b` instruction.
 *
 * The instruction is reached through a small C routine that runs `lock
 * cmpxchg16b` followed by `setz`, so it reports 1 when the exchange took
 * place and 0 when it did not. The Rust wrapper around that routine and
 * `compare_exchange` each report the wrong value in one branch; the model
 * keeps both as written next to the corrected versions the rest of the
 * model uses.
 */
module X86Ptr {

  import opened RustCore

  /** `u128`: two 64-bit words read as one unsigned number. */
  type U128 = x: int | 0 <= x < 0x1_0000_0000_0000_0000_0000_0000_0000_0000

  /** The value of the upper word of a `u128`: 2 to the 64th. */
  const WordBase: int := 0x1_0000_0000_0000_0000

  /** `MarkedPtr128<T>`: the pointer word and the 64-bit tag word. */
  datatype MarkedPtr128 = MarkedPtr128(ptr: U64, tag: U64)

  /** `null` (and `Default`): the null pointer with tag 0. */
  function Null(): (r: MarkedPtr128)
    ensures Decompose(r) == (0, 0)
  {
    MarkedPtr128(0, 0)
  }

  /** `Default`: `null`. */
  function Default(): (r: MarkedPtr128)
    ensures Decompose(r) == (0, 0)
  {
    Null()
  }

  /** `new`: the pointer with tag 0. */
  function New(ptr: U64): (r: MarkedPtr128)
    ensures Decompose(r) == (ptr, 0)
  {
    MarkedPtr128(ptr, 0)
  }

  /** `compose`: the pointer and the whole 64-bit tag, both kept as given. */
  function Compose(ptr: U64, tag: U64): (r: MarkedPtr128)
    ensures Decompose(r) == (ptr, tag)
  {
    MarkedPtr128(ptr, tag)
  }

  /** `cast`: the same pointer and tag under another pointee type. */
  function Cast(m: MarkedPtr128): (r: MarkedPtr128)
    ensures Decompose(r) == Decompose(m)
  {
    MarkedPtr128(m.ptr, m.tag)
  }

  /** `decompose_ptr`: the pointer word. */
  function DecomposePtr(m: MarkedPtr128): U64
  {
    m.ptr
  }

  /** `decompose_tag`: the tag word. */
  function DecomposeTag(m: MarkedPtr128): U64
  {
    m.tag
  }

  /** `decompose`: the pointer and the tag, from which `compose` rebuilds `m`. */
  function Decompose(m: MarkedPtr128): (r: (U64, U64))
    ensures r == (DecomposePtr(m), DecomposeTag(m))
    ensures MarkedPtr128(r.0, r.1) == m
  {
    (DecomposePtr(m), DecomposeTag(m))
  }

  /**
   * The pair a `u128` holds when read as a `MarkedPtr128` (the transmute
   * the atomic cell performs on the words): the low word is the pointer,
   * the high word the tag.
   */
  function FromU128(x: U128): (r: MarkedPtr128)
    ensures r.tag * WordBase + r.ptr == x
  {
    MarkedPtr128(x % WordBase, x / WordBase)
  }

  /**
   * `into_u128`: the two words as one `u128` (a transmute of the `repr(C)`
   * pair on a little-endian machine), from which the pair is read back.
   */
  function IntoU128(m: MarkedPtr128): (r: U128)
    ensures FromU128(r) == m
  {
    m.tag * WordBase + m.ptr
  }

  /**
   * `strongest_failure_ordering`: the failure ordering `compare_and_swap`
   * passes on, the strongest one a compare-exchange with success ordering
   * `order` accepts. (Its last arm, `unreachable!()`, covers the orderings
   * a later Rust might add.)
   */
  function StrongestFailureOrdering(order: Ordering): (r: Ordering)
    ensures FailureOrderOk(order, r)
    ensures forall f :: FailureOrderOk(order, f) ==> LoadStrength(f) <= LoadStrength(r)
    ensures LoadOrderOk(order) ==> r == order
  {
    match order
    case Release => Relaxed
    case Relaxed => Relaxed
    case SeqCst => SeqCst
    case Acquire => Acquire
    case AcqRel => Acquire
  }

  /**
   * `AtomicMarkedPtr128<T>`: an atomic pointer word and an atomic tag word,
   * 16-byte aligned so that `cmpxchg16b` can update both at once.
   */
  class AtomicMarkedPtr128 {
    var ptr: U64
    var tag: U64

    /** `new`: a cell holding the two halves of `m`, which `into_inner` gives back. */
    constructor New(m: MarkedPtr128)
      ensures IntoInner() == m
    {
      var (p, t) := Decompose(m);
      ptr := p;
      tag := t;
    }

    /** `into_inner`: the pair the two words hold. */
    function IntoInner(): MarkedPtr128
      reads this
    {
      MarkedPtr128(ptr, tag)
    }

    /**
     * `dwcas_compare_exchange_128`, the C routine: one atomic step that
     * compares both words with `expected`, writes `desired` when they match,
     * and returns the zero flag, 1 after a match and 0 otherwise.
     */
    method Dwcas(expected: U128, desired: U128) returns (zf: bv8)
      modifies this
      ensures zf == if old(IntoU128(IntoInner())) == expected then 1 else 0
      ensures IntoInner() == if old(IntoU128(IntoInner())) == expected then FromU128(desired) else old(IntoInner())
    {
      if IntoU128(IntoInner()) == expected {
        var d := FromU128(desired);
        ptr := d.ptr;
        tag := d.tag;
        zf := 1;
      } else {
        zf := 0;
      }
    }

    /**
     * `ffi::cmpxchg16b` as written: a result of 0 is mapped to `expected`
     * and any other to the words now in the cell. Since the routine gives 0
     * after a mismatch, a failed exchange reports `expected`, as if it had
     * succeeded, and a successful one reports `desired`.
     */
    method Cmpxchg16bAsWritten(expected: U128, desired: U128) returns (r: U128)
      modifies this
      ensures IntoInner() == if old(IntoU128(IntoInner())) == expected then FromU128(desired) else old(IntoInner())
      ensures r == if old(IntoU128(IntoInner())) == expected then desired else expected
    {
      var zf := Dwcas(expected, desired);
      if zf == 0 {
        r := expected;
      } else {
        r := IntoU128(IntoInner());
      }
    }

    /**
     * `ffi::cmpxchg16b` corrected: like the `core::arch` intrinsic, it
     * returns the words the cell held before the step, which equal
     * `expected` exactly when the exchange took place.
     */
    method Cmpxchg16b(expected: U128, desired: U128) returns (r: U128)
      modifies this
      ensures IntoInner() == if old(IntoU128(IntoInner())) == expected then FromU128(desired) else old(IntoInner())
      ensures r == old(IntoU128(IntoInner()))
    {
      var zf := Dwcas(expected, desired);
      if zf != 0 {
        r := expected;
      } else {
        r := IntoU128(IntoInner());
      }
    }

    /**
     * `compare_exchange` as written: it succeeds exactly when the cell
     * holds `current`, but on failure it returns `replacement` in `Err`
     * rather than the pair observed in the cell.
     */
    method CompareExchangeAsWritten(current: MarkedPtr128, replacement: MarkedPtr128, success: Ordering, failure: Ordering)
      returns (r: Result<MarkedPtr128, MarkedPtr128>)
      modifies this
      ensures r.Ok? <==> old(IntoInner()) == current
      ensures r.Ok? ==> r.value == current && IntoInner() == replacement
      ensures r.Err? ==> r.error == replacement && IntoInner() == old(IntoInner())
    {
      var expected := IntoU128(current);
      var res := Cmpxchg16b(expected, IntoU128(replacement));
      if res == expected {
        r := Ok(current);
      } else {
        r := Err(replacement);
      }
    }

    /**
     * `compare_exchange` corrected: succeeds exactly when the cell holds
     * `current` in both words, then stores `replacement` and returns
     * `current` in `Ok`; otherwise returns the observed pair in `Err` and
     * leaves the cell alone.
     */
    method CompareExchange(current: MarkedPtr128, replacement: MarkedPtr128, success: Ordering, failure: Ordering)
      returns (r: Result<MarkedPtr128, MarkedPtr128>)
      modifies this
      ensures r.Ok? <==> old(IntoInner()) == current
      ensures r.Ok? ==> r.value == current && IntoInner() == replacement
      ensures r.Err? ==> r.error == old(IntoInner()) && IntoInner() == old(IntoInner())
    {
      var expected := IntoU128(current);
      var res := Cmpxchg16b(expected, IntoU128(replacement));
      if res == expected {
        r := Ok(current);
      } else {
        r := Err(FromU128(res));
      }
    }

    /**
     * `compare_and_swap`: `compare_exchange` with the strongest failure
     * ordering for `order`, returning the pair of either outcome, which is
     * the pair held before.
     */
    method CompareAndSwap(current: MarkedPtr128, replacement: MarkedPtr128, order: Ordering) returns (previous: MarkedPtr128)
      modifies this
      ensures previous == old(IntoInner())
      ensures IntoInner() == if old(IntoInner()) == current then replacement else old(IntoInner())
    {
      var r := CompareExchange(current, replacement, order, StrongestFailureOrdering(order));
      match r
      case Ok(res) => previous := res;
      case Err(res) => previous := res;
    }

    /**
     * `load`: a release ordering (`Release` or `AcqRel`) falls to the
     * panicking arm; the others give `compare_and_swap(null, null)`, which
     * returns the pair held and leaves the cell as it was.
     */
    method Load(order: Ordering) returns (r: Outcome<MarkedPtr128>)
      modifies this
      ensures r.Panics? <==> !LoadOrderOk(order)
      ensures r.Returns? ==> r.value == old(IntoInner())
      ensures IntoInner() == old(IntoInner())
    {
      if !LoadOrderOk(order) {
        r := Panics;
      } else {
        var previous := CompareAndSwap(Null(), Null(), order);
        r := Returns(previous);
      }
    }

    /**
     * `compare_and_swap` as written, over `compare_exchange` as written: it
     * returns `current` after a match and `replacement` after a mismatch, so
     * it never reports a pair the cell held that differs from `current`.
     */
    method CompareAndSwapAsWritten(current: MarkedPtr128, replacement: MarkedPtr128, order: Ordering) returns (previous: MarkedPtr128)
      modifies this
      ensures previous == if old(IntoInner()) == current then current else replacement
      ensures IntoInner() == if old(IntoInner()) == current then replacement else old(IntoInner())
    {
      var r := CompareExchangeAsWritten(current, replacement, order, StrongestFailureOrdering(order));
      match r
      case Ok(res) => previous := res;
      case Err(res) => previous := res;
    }

    /**
     * `load` as written: a release ordering panics as in `load`; otherwise
     * `compare_and_swap(null, null)` over the as-written `compare_exchange`
     * returns `null` from every cell, whatever it holds.
     */
    method LoadAsWritten(order: Ordering) returns (r: Outcome<MarkedPtr128>)
      modifies this
      ensures r.Panics? <==> !LoadOrderOk(order)
      ensures r.Returns? ==> r.value == Null()
      ensures IntoInner() == old(IntoInner())
    {
      if !LoadOrderOk(order) {
        r := Panics;
      } else {
        var previous := CompareAndSwapAsWritten(Null(), Null(), order);
        r := Returns(previous);
      }
    }
  }

  /*
   * Properties.
   */

  /** Reading a `u128` as a pair and writing it back gives the same number. */
  lemma U128RoundTrip(x: U128)
    ensures IntoU128(FromU128(x)) == x
  {
  }

  /** Two pairs have the same `u128` exactly when both their words are equal. */
  lemma IntoU128Injective(a: MarkedPtr128, b: MarkedPtr128)
    ensures IntoU128(a) == IntoU128(b) <==> a == b
  {
    if IntoU128(a) == IntoU128(b) {
      assert a == FromU128(IntoU128(a));
    }
  }

  /** `null` and `Default` are one pair, whose `u128` is 0. */
  lemma NullIsZero()
    ensures Default() == Null() == New(0) == Compose(0, 0)
    ensures IntoU128(Null()) == 0
  {
  }

  /** `strongest_failure_ordering` never yields `Release` or `AcqRel`. */
  lemma StrongestFailureIsLoadOrdering(order: Ordering)
    ensures StrongestFailureOrdering(order) != Release
    ensures StrongestFailureOrdering(order) != AcqRel
  {
  }

  /**
   * The ffi wrapper as written inverts the outcome: on a cell holding
   * `(0x1000, 1)`, an exchange expecting `(0x1000, 0)` fails and leaves the
   * cell alone, yet reports `expected`, which `compare_exchange` reads as
   * success; an exchange expecting `(0x1000, 1)` succeeds, yet reports
   * `desired`, which it reads as failure.
   */
  method Cmpxchg16bAsWrittenInverts() returns (onMismatch: U128, heldAfterMismatch: MarkedPtr128, onMatch: U128)
    ensures onMismatch == IntoU128(MarkedPtr128(0x1000, 0))
    ensures heldAfterMismatch == MarkedPtr128(0x1000, 1)
    ensures onMatch == IntoU128(MarkedPtr128(0x2000, 0)) != IntoU128(MarkedPtr128(0x1000, 1))
  {
    var cell := new AtomicMarkedPtr128.New(MarkedPtr128(0x1000, 1));
    onMismatch := cell.Cmpxchg16bAsWritten(IntoU128(MarkedPtr128(0x1000, 0)), IntoU128(MarkedPtr128(0x2000, 0)));
    heldAfterMismatch := cell.IntoInner();
    onMatch := cell.Cmpxchg16bAsWritten(IntoU128(MarkedPtr128(0x1000, 1)), IntoU128(MarkedPtr128(0x2000, 0)));
  }

  /**
   * `compare_exchange` as written reports the pair it tried to store: on a
   * cell holding `(0x1000, 1)`, an exchange of `(0x1000, 0)` for
   * `(0x2000, 0)` fails and returns `Err((0x2000, 0))`, a pair the cell
   * never held, where the corrected one returns `Err((0x1000, 1))`.
   */
  method CompareExchangeAsWrittenReportsReplacement() returns (asWritten: Result<MarkedPtr128, MarkedPtr128>, corrected: Result<MarkedPtr128, MarkedPtr128>)
    ensures asWritten == Err(MarkedPtr128(0x2000, 0))
    ensures corrected == Err(MarkedPtr128(0x1000, 1))
  {
    var cell := new AtomicMarkedPtr128.New(MarkedPtr128(0x1000, 1));
    asWritten := cell.CompareExchangeAsWritten(MarkedPtr128(0x1000, 0), MarkedPtr128(0x2000, 0), SeqCst, SeqCst);
    corrected := cell.CompareExchange(MarkedPtr128(0x1000, 0), MarkedPtr128(0x2000, 0), SeqCst, SeqCst);
  }

  /**
   * As written, `load` loses the pair: a cell holding `(0x1000, 1)` loads as
   * `(0, 0)`, where the corrected `load` gives `(0x1000, 1)` back.
   */
  method LoadAsWrittenReturnsNull() returns (asWritten: Outcome<MarkedPtr128>, corrected: Outcome<MarkedPtr128>)
    ensures asWritten == Returns(MarkedPtr128(0, 0))
    ensures corrected == Returns(MarkedPtr128(0x1000, 1))
  {
    var cell := new AtomicMarkedPtr128.New(MarkedPtr128(0x1000, 1));
    asWritten := cell.LoadAsWritten(SeqCst);
    corrected := cell.Load(SeqCst);
  }

  /** A cell made with `new` loads back the pair it was given. */
  method LoadAfterNew(m: MarkedPtr128) returns (r: Outcome<MarkedPtr128>)
    ensures r == Returns(m)
  {
    var cell := new AtomicMarkedPtr128.New(m);
    r := cell.Load(SeqCst);
  }
}

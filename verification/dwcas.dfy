/**
 * The double-word pointer of src/arch64/dwcas.rs: `TagPtr<T>`, a pair of a
 * raw pointer and a full 64-bit tag kept in a second word, and
 * `AtomicTagPtr<T>`, a 16-byte cell updated with the x86-64 `cmpxchg16b`
 * instruction.
 *
 * Because the tag has a word of its own, nothing is masked or truncated: a
 * composed pair decomposes to exactly what was put in. The cell is modelled
 * sequentially; the instruction is one atomic step on the pair.
 */
module DwcasPtr {

  import opened RustCore

  /** `TagPtr<T>`: the pointer word and the 64-bit tag word. */
  datatype TagPtr = TagPtr(ptr: U64, tag: U64)

  /** `null`: the null pointer with tag 0. */
  function Null(): (r: TagPtr)
    ensures Decompose(r) == (0, 0)
  {
    TagPtr(0, 0)
  }

  /** `Default`: the same pair as `null`. */
  function Default(): (r: TagPtr)
    ensures Decompose(r) == (0, 0)
  {
    Null()
  }

  /** `new`: the pointer with tag 0. */
  function New(ptr: U64): (r: TagPtr)
    ensures Decompose(r) == (ptr, 0)
  {
    TagPtr(ptr, 0)
  }

  /** `compose`: the pointer and the whole 64-bit tag, both kept as given. */
  function Compose(ptr: U64, tag: U64): (r: TagPtr)
    ensures Decompose(r) == (ptr, tag)
  {
    TagPtr(ptr, tag)
  }

  /** `ptr` (and `decompose_ptr`): the pointer word. */
  function Ptr(p: TagPtr): U64
  {
    p.ptr
  }

  /** `tag` (and `decompose_tag`): the tag word. */
  function Tag(p: TagPtr): U64
  {
    p.tag
  }

  /** `decompose`: the pointer and the tag, from which `compose` rebuilds the pair. */
  function Decompose(p: TagPtr): (r: (U64, U64))
    ensures r == (Ptr(p), Tag(p))
    ensures TagPtr(r.0, r.1) == p
  {
    (Ptr(p), Tag(p))
  }

  /** `PartialEq::eq`: equal exactly when the pairs are the same value. */
  function Eq(a: TagPtr, b: TagPtr): (r: bool)
    ensures r <==> a == b
  {
    a.ptr == b.ptr && a.tag == b.tag
  }

  /** `cmp` on a pointer or a `u64`: the unsigned order of the words. */
  function CmpU64(a: U64, b: U64): (r: CmpOrdering)
    ensures r == Less <==> a < b
    ensures r == Equal <==> a == b
    ensures r == Greater <==> b < a
  {
    if a < b then Less else if a == b then Equal else Greater
  }

  /** `partial_cmp` on a pointer or a `u64`: the total order, always defined. */
  function PartialCmpU64(a: U64, b: U64): (r: Option<CmpOrdering>)
    ensures r.Some?
    ensures r.value == Less <==> a < b
    ensures r.value == Equal <==> a == b
    ensures r.value == Greater <==> b < a
  {
    Some(CmpU64(a, b))
  }

  /** The ordering with its two sides swapped. */
  function Reverse(o: CmpOrdering): CmpOrdering
  {
    match o
    case Less => Greater
    case Equal => Equal
    case Greater => Less
  }

  /**
   * `Ord::cmp`: lexicographic, the pointers first and the tags when the
   * pointers are equal.
   */
  function Cmp(a: TagPtr, b: TagPtr): (r: CmpOrdering)
    ensures r == Equal <==> a == b
    ensures r == Less <==> a.ptr < b.ptr || (a.ptr == b.ptr && a.tag < b.tag)
    ensures r == Greater <==> b.ptr < a.ptr || (a.ptr == b.ptr && b.tag < a.tag)
  {
    match CmpU64(a.ptr, b.ptr)
    case Equal => CmpU64(a.tag, b.tag)
    case any => any
  }

  /**
   * `PartialOrd::partial_cmp` as written: when the pointers are equal it
   * compares the tag of `a` with itself, so every two pairs with the same
   * pointer are reported equal.
   */
  function PartialCmpAsWritten(a: TagPtr, b: TagPtr): (r: Option<CmpOrdering>)
    ensures r.Some?
    ensures a.ptr == b.ptr ==> r == Some(Equal)
    ensures a.ptr != b.ptr ==> r == Some(Cmp(a, b))
  {
    match PartialCmpU64(a.ptr, b.ptr)
    case Some(Equal) => PartialCmpU64(a.tag, a.tag)
    case any => any
  }

  /** `PartialOrd::partial_cmp` corrected: the tags of both sides are compared. */
  function PartialCmp(a: TagPtr, b: TagPtr): (r: Option<CmpOrdering>)
    ensures r == Some(Cmp(a, b))
    ensures r == Some(Equal) <==> Eq(a, b)
  {
    match PartialCmpU64(a.ptr, b.ptr)
    case Some(Equal) => PartialCmpU64(a.tag, b.tag)
    case any => any
  }

  /** `AtomicTagPtr<T>`: a 16-byte cell holding a `TagPtr`. */
  class AtomicTagPtr {
    var inner: TagPtr

    /** `new`: a cell holding `ptr`. */
    constructor New(ptr: TagPtr)
      ensures inner == ptr
    {
      inner := ptr;
    }

    /** `Default`: a cell holding `TagPtr::null()`. */
    constructor Default()
      ensures inner == Null()
    {
      inner := Null();
    }

    /**
     * The `cmpxchg16b` instruction, as the `core::arch` intrinsic exposes
     * it: one atomic step that compares both words with `expected`, writes
     * `desired` when they match, and returns the pair held before.
     */
    method Cmpxchg16b(expected: TagPtr, desired: TagPtr) returns (previous: TagPtr)
      modifies this
      ensures previous == old(inner)
      ensures inner == if old(inner) == expected then desired else old(inner)
    {
      previous := inner;
      if inner == expected {
        inner := desired;
      }
    }

    /**
     * `compare_exchange`: succeeds exactly when the cell holds `current` in
     * both words, then stores `replacement` and returns the previous pair in
     * `Ok`; otherwise returns the observed pair in `Err` and leaves the cell
     * alone. The intrinsic panics, before it touches the cell, on a failure
     * ordering that is a release ordering or stronger than the success
     * ordering.
     */
    method CompareExchange(current: TagPtr, replacement: TagPtr, success: Ordering, failure: Ordering)
      returns (r: Outcome<Result<TagPtr, TagPtr>>)
      modifies this
      ensures r.Panics? <==> !FailureOrderOk(success, failure)
      ensures r.Panics? ==> inner == old(inner)
      ensures r.Returns? ==> (r.value.Ok? <==> old(inner) == current)
      ensures r.Returns? && r.value.Ok? ==> r.value.value == old(inner) && inner == replacement
      ensures r.Returns? && r.value.Err? ==> r.value.error == old(inner) && inner == old(inner)
    {
      if !FailureOrderOk(success, failure) {
        r := Panics;
        return;
      }
      var res := Cmpxchg16b(current, replacement);
      if res == current {
        r := Returns(Ok(res));
      } else {
        r := Returns(Err(res));
      }
    }

    /**
     * `compare_and_swap`: `compare_exchange` with a relaxed failure
     * ordering, returning the pair of either outcome, which is always the
     * pair held before.
     */
    method CompareAndSwap(current: TagPtr, replacement: TagPtr, order: Ordering) returns (previous: TagPtr)
      modifies this
      ensures previous == old(inner)
      ensures inner == if old(inner) == current then replacement else old(inner)
    {
      RelaxedFailureAlwaysOk(order);
      var r := CompareExchange(current, replacement, order, Relaxed);
      match r
      case Returns(Ok(res)) => previous := res;
      case Returns(Err(res)) => previous := res;
      case Panics => assert false;
    }

    /**
     * `load`: its assertion makes a release ordering (`Release` or `AcqRel`)
     * panic; otherwise `compare_and_swap(NULL, NULL)`, which returns the pair
     * held and leaves the cell as it was whether or not it held `NULL`.
     */
    method Load(order: Ordering) returns (r: Outcome<TagPtr>)
      modifies this
      ensures r.Panics? <==> !LoadOrderOk(order)
      ensures r.Returns? ==> r.value == old(inner)
      ensures inner == old(inner)
    {
      if !LoadOrderOk(order) {
        r := Panics;
      } else {
        var previous := CompareAndSwap(Null(), Null(), order);
        r := Returns(previous);
      }
    }
  }

  /*
   * Properties.
   */

  /**
   * A cell made with `new` loads back the pair it was given, whatever its
   * tag (the `atomic_load` unit test uses `u64::MAX`).
   */
  method LoadAfterNew(p: TagPtr) returns (r: Outcome<TagPtr>)
    ensures r == Returns(p)
  {
    var cell := new AtomicTagPtr.New(p);
    r := cell.Load(SeqCst);
  }

  /** `decompose` undoes `compose` for every pointer and every 64-bit tag. */
  lemma ComposeDecomposeRoundTrip(ptr: U64, tag: U64)
    ensures Decompose(Compose(ptr, tag)) == (ptr, tag)
    ensures Compose(Decompose(Compose(ptr, tag)).0, Decompose(Compose(ptr, tag)).1) == Compose(ptr, tag)
  {
  }

  /** `null`, `Default` and `new` of the null pointer are one pair. */
  lemma NullIsDefault()
    ensures Null() == Default() == New(0) == Compose(0, 0)
  {
  }

  /** `cmp` with the sides swapped gives the reverse ordering. */
  lemma CmpAntisymmetric(a: TagPtr, b: TagPtr)
    ensures Cmp(b, a) == Reverse(Cmp(a, b))
  {
  }

  /** `cmp` is transitive. */
  lemma CmpTransitive(a: TagPtr, b: TagPtr, c: TagPtr)
    ensures Cmp(a, b) == Less && Cmp(b, c) == Less ==> Cmp(a, c) == Less
  {
  }

  /**
   * The `partial_cmp` as written disagrees with `cmp` and with `eq`: the
   * pairs `(0x1000, 1)` and `(0x1000, 2)` are unequal and `cmp` orders them
   * `Less`, yet `partial_cmp` calls them `Equal`.
   */
  lemma PartialCmpAsWrittenDisagrees()
    ensures !Eq(TagPtr(0x1000, 1), TagPtr(0x1000, 2))
    ensures Cmp(TagPtr(0x1000, 1), TagPtr(0x1000, 2)) == Less
    ensures PartialCmpAsWritten(TagPtr(0x1000, 1), TagPtr(0x1000, 2)) == Some(Equal)
    ensures PartialCmp(TagPtr(0x1000, 1), TagPtr(0x1000, 2)) == Some(Less)
  {
  }

  /**
   * The as-written `partial_cmp` agrees with `cmp` exactly when the pointers
   * differ or the tags are equal.
   */
  lemma PartialCmpAsWrittenAgreesIff(a: TagPtr, b: TagPtr)
    ensures PartialCmpAsWritten(a, b) == PartialCmp(a, b) <==> a.ptr != b.ptr || a.tag == b.tag
  {
  }
}

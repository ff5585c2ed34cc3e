# tagptr: a verified model of marked pointers

`tagptr` stores a pointer and a small tag in one machine word. Because a
pointer to a `T` is aligned to `align_of::<T>()`, its lowest bits are always
zero, and up to `trailing_zeros(align_of::<T>())` of them can hold a tag.
A 64-bit address uses only 48 bits, so the top 16 bits can hold a tag instead.
A double-width variant keeps the pointer and a full 64-bit tag in two words
and updates both at once with the x86-64 `cmpxchg16b` instruction.

This project models each of those views in Dafny, one module per source file,
and proves what the library promises about them:

- `Codec` (src/lib.rs) is the shared low-bit codec.
  - The tag mask for `n` bits is `2^n - 1`.
  - The mask is only defined when `n` fits in the pointee's alignment.
  - The pointer half and the tag half of a word are disjoint and together make the word.
  - `compose` followed by `decompose` gives back an aligned pointer and the tag truncated to the mask.
- Nullable and non-null marked pointers, built on that codec:
  - `TypenumPtr` (src/raw.rs);
  - `ConstPtr` (src/imp/ptr.rs);
  - `NightlyPtr` (src/nightly/raw.rs);
  - `NonNullPtr` (src/imp/non_null.rs).
- `MaybeNulls` (src/imp/maybe.rs) and `MarkedOptions` (src/option.rs): optionals that keep the tag of a marked null.
- The high-bit 16-bit-tag variant:
  - `HighBits` (src/arch64.rs);
  - `NativePtr` (src/arch64/mod.rs);
  - `Ptr64` (src/arch64/imp/ptr.rs, with the method bodies of src/macros/ptr.rs).
- The single-word atomic cells `AtomicPtr` (src/imp/atomic.rs) and `LegacyAtomic` (src/atomic.rs).
  - Each is a class with one `bv64` field.
  - Memory orderings appear only through the panics that an ordering the source refuses causes.
- The double-word cells `DwcasPtr` (src/arch64/dwcas.rs) and `X86Ptr` (src/x86_64.rs).
  - Each is derived from one compare-exchange step on a pair field.

Words are `bv64` and the tag width is a parameter below 64. Alignment is a power of two `align`, given as a parameter.

The pure files become datatypes, functions and lemmas. Operations that take
`&mut self` or update an atomic cell become methods on classes with
`modifies` clauses. `RustCore` (core.dfy) holds the Rust vocabulary the
modules share: `Option`, `Result`, the `Outcome` of a call that may panic,
`cmp::Ordering`, atomic `Ordering` and the ordering rules the standard
atomics enforce. Those rules follow ISO/IEC 14882:2011: clause 29.6.5 for the failure ordering of a compare-exchange, and clause 29.3 for the orders themselves.

## Model

| member | source | states |
|---|---|---|
| RustCore.RelaxedFailureAlwaysOk | src/arch64/dwcas.rs:72-82 | a Relaxed failure ordering is acceptable with every success ordering, so `compare_and_swap` never panics |
| Codec.TrailingZeros | src/lib.rs:110-113 | the number of trailing zero bits of a non-zero word: all bits below it are clear and the bit itself is set |
| Codec.ShiftOneIsPow2 | src/lib.rs:115-120 | `1 << n` is the number 2^n |
| Codec.MaskIsPow2Minus1 | src/lib.rs:115-120 | the tag mask for n bits is the number 2^n - 1 |
| Codec.LowerBits | src/lib.rs:110-113 | `lower_bits` of a power-of-two alignment: the alignment is `1 << lower_bits` and `align - 1` is the mask of that many bits |
| Codec.MarkMask | src/lib.rs:115-120 | `mark_mask` is defined (its alignment assertion passes) exactly when n is at most the alignment's trailing-zero count, and is then 2^n - 1 |
| Codec.AlignmentAdmits | src/lib.rs:115-120 | the alignment check of `mark_mask` passes exactly when the alignment has its n low bits clear, that is, when 2^n divides it |
| Codec.AlignedPointerHasNoTag | src/lib.rs:115-120 | when `mark_mask` is defined, every aligned pointer has its n low bits clear |
| Codec.Compose | src/lib.rs:122-126 | for a pointer with its low bits clear (the debug assertion), the pointer half of the result is the pointer and the tag half is the tag truncated to the mask |
| Codec.Decompose | src/lib.rs:95-98 | splits a word into a pointer with its low bits clear and a tag with no bit outside the mask, which `compose` puts back together into the same word; Codec.DecomposeIsUnique shows that these three facts leave only (`decompose_ptr`, `decompose_tag`) |
| Codec.DecomposeIsUnique | src/lib.rs:95-108 | any tag-free pointer and tag inside the mask that compose to a word are exactly that word's `decompose` |
| Codec.PtrHalfHasNoTag | src/lib.rs:100-103 | the pointer half has its n low bits clear |
| Codec.TagHalfIsMasked | src/lib.rs:105-108 | the tag half has no bit outside the mask |
| Codec.TagAtMostMask | src/lib.rs:105-108 | the tag half is at most 2^n - 1 |
| Codec.HalvesAreDisjoint | src/lib.rs:100-108 | the pointer half and the tag half share no bit |
| Codec.HalvesMakeWord | src/lib.rs:100-108 | the or of the two halves is the word |
| Codec.HalvesDetermineWord | src/lib.rs:100-108 | two words with equal pointer halves and equal tag halves are equal |
| Codec.DecomposeRecomposes | src/lib.rs:95-126 | composing the two halves of any word gives back the word |
| Codec.UntaggedIsPointer | src/lib.rs:100-103 | a word with its low bits clear is its own pointer half |
| Codec.UntaggedHasNoTag | src/lib.rs:105-108 | a word with its low bits clear has tag 0 |
| Codec.MarkedNullIsTag | src/lib.rs:105-108 | a word whose pointer half is null is its own tag |
| Codec.AlignedRoundTrip | src/lib.rs:122-126 | an aligned pointer and a tag that fits the mask decompose back to exactly themselves |
| Codec.WrappingSubUndoesAdd | src/macros/ptr.rs:99-109 | wrapping subtraction undoes wrapping addition for every word |
| Codec.WrappingAddUndoesSub | src/macros/ptr.rs:99-109 | wrapping addition undoes wrapping subtraction for every word |
| TypenumPtr.IntoUsize | src/raw.rs:107-110 | `from_usize` of the result gives back the marked pointer |
| TypenumPtr.Compose | src/raw.rs:172-175 | for an aligned pointer, the result has that pointer half and the tag truncated to `MARK_MASK` |
| TypenumPtr.Decompose | src/raw.rs:179-182 | the pair (`decompose_ptr`, `decompose_tag`): a pointer part with no tag bits and a tag with no bit outside `MARK_MASK`, which `compose` puts back together into the marked pointer |
| TypenumPtr.ClearTag | src/raw.rs:136-139 | keeps the pointer half and sets the tag to 0 |
| TypenumPtr.WithTag | src/raw.rs:154-157 | keeps the pointer half and sets the tag to the new tag truncated to the mask |
| TypenumPtr.NullIsUnmarked | src/raw.rs:40-63 | `Default` is `null` and `null` decomposes to (0, 0) |
| TypenumPtr.NewIsUnmarked | src/raw.rs:51-57 | `new` of an aligned pointer decomposes to that pointer and tag 0 |
| TypenumPtr.UsizeRoundTrip | src/raw.rs:87-110 | `into_usize(from_usize(w)) == w` for every word |
| TypenumPtr.FromUsizeOneIsMarkedNull | src/raw.rs:80-93 | with one mark bit, the word 1 is a null pointer with tag 1 |
| TypenumPtr.ComposeDecompose | src/raw.rs:172-194 | for an aligned pointer and a tag that fits, `compose` then `decompose` gives back both |
| TypenumPtr.ClearTagOfComposed | src/raw.rs:136-139 | clearing the tag of a composed pointer decomposes to (pointer, 0) |
| TypenumPtr.WithTagOfComposed | src/raw.rs:154-157 | re-tagging a composed pointer decomposes to (pointer, new tag) |
| TypenumPtr.NewNonNull | src/raw.rs:469-477 | `MarkedNonNull::new` panics exactly when the pointer has tag bits; otherwise it gives `None` exactly for null, and a valid non-null pointer holding the same word |
| TypenumPtr.ComposeNonNull | src/raw.rs:494-508 | `MarkedNonNull::compose` panics exactly when the pointer has tag bits; otherwise the result is valid, with that pointer and the truncated tag |
| TypenumPtr.NonNullDecompose | src/raw.rs:512-515 | exactly (`decompose_non_null`, `decompose_tag`): the tag has no bit outside `MARK_MASK`, and `compose` of the two parts gives back the non-null pointer without panicking |
| TypenumPtr.FromMarkedPtr | src/raw.rs:480-486 | gives `Value` exactly when the pointer half is non-null, holding the same word; otherwise `Null` carrying the tag, which is then the whole word |
| TypenumPtr.TryFrom | src/raw.rs:722-732 | an error exactly when the pointer half is null; otherwise a valid non-null pointer with the same word |
| TypenumPtr.DanglingIsValid | src/raw.rs:396-402 | when the mask is defined, `dangling` is a valid non-null pointer with tag 0 |
| TypenumPtr.MarkedPtrRoundTrip | src/raw.rs:445-486 | a valid non-null pointer turned into a `MarkedPtr` comes back unchanged through `from_marked_ptr` and `try_from` |
| TypenumPtr.MarkedNullKeepsTag | src/raw.rs:480-486 | a marked null becomes `Null(tag)` with its tag kept |
| ConstPtr.Compose | src/imp/ptr.rs:62-66 | panics (the alignment assertion) exactly when the alignment of `T` does not have its N low bits clear; otherwise, for a pointer with no tag bits, the pointer half is the pointer and the tag is truncated to `TAG_MASK` |
| ConstPtr.Join | src/imp/ptr.rs:65 | the word built once the alignment assertion has passed: its pointer half is the pointer and its tag is the tag truncated to `TAG_MASK` |
| ConstPtr.ComposeChecksAlignment | src/imp/ptr.rs:62-66 | `compose` panics exactly when `mark_mask` is undefined, that is, when `lower_bits::<T>()` is below N |
| ConstPtr.IsNull | src/imp/ptr.rs:81-84 | true exactly when the word is nothing but its tag, whatever the tag |
| ConstPtr.IsNullIffAtMostMask | src/imp/ptr.rs:81-84 | a marked pointer is null exactly when its word is at most `TAG_MASK` |
| ConstPtr.ClearTag | src/imp/ptr.rs:100-103 | keeps the pointer half and sets the tag to 0 |
| ConstPtr.SplitTag | src/imp/ptr.rs:117-121 | the pointer with its tag cleared and the old tag, which `compose` puts back together |
| ConstPtr.SetTag | src/imp/ptr.rs:137-140 | goes through `compose`, so it panics on the same alignment check; otherwise keeps the pointer half and sets the tag to the new tag truncated to the mask |
| ConstPtr.UpdateTag | src/imp/ptr.rs:155-159 | goes through `compose`, so it panics on the same alignment check; otherwise keeps the pointer half and sets the tag to `func(old tag)` truncated to the mask |
| ConstPtr.AddTag | src/imp/ptr.rs:166-169 | plain `+` on the whole word: panics (overflow) exactly when the sum exceeds the word |
| ConstPtr.SubTag | src/imp/ptr.rs:177-180 | plain `-` on the whole word: panics (underflow) exactly when the value exceeds the word |
| ConstPtr.Decompose | src/imp/ptr.rs:184-187 | the pair (pointer half, tag half), with no tag bits in the pointer, which `compose` puts back together |
| ConstPtr.DecomposeSplits | src/imp/ptr.rs:190-199 | the pointer half has no tag bits, the tag half none outside the mask, and their or is the word |
| ConstPtr.MarkedNullIsNull | src/imp/ptr.rs:77-84 | `compose(null, tag)` is null whatever the tag |
| ConstPtr.SetTagTruncates | src/imp/ptr.rs:426-449 | setting a tag and setting the tag truncated to the mask give the same pointer |
| ConstPtr.AddTagFits | src/imp/ptr.rs:166-169 | adding bits that are clear in the word never overflows |
| ConstPtr.AddTagSetsClearBits | src/imp/ptr.rs:166-169 | adding bits that are clear in the word sets exactly those bits |
| ConstPtr.AddTagUnion | src/imp/ptr.rs:166-169 | an `add_tag` of clear bits that returns gives the or of the word and the value |
| ConstPtr.SubTagFits | src/imp/ptr.rs:177-180 | subtracting bits that are set in the word never underflows |
| ConstPtr.SubTagClearsSetBits | src/imp/ptr.rs:177-180 | subtracting bits that are set in the word clears exactly those bits |
| ConstPtr.SubTagDifference | src/imp/ptr.rs:177-180 | a `sub_tag` of set bits that returns gives the word without those bits |
| ConstPtr.FreeTagBitsAreFree | src/imp/ptr.rs:166-169 | bits inside the mask that are clear in the tag are clear in the word |
| ConstPtr.UsedTagBitsAreUsed | src/imp/ptr.rs:177-180 | bits that are set in the tag are set in the word |
| ConstPtr.MarkingKeepsPtr | src/imp/ptr.rs:166-169 | setting bits inside the mask keeps the pointer half |
| ConstPtr.MarkingSetsTag | src/imp/ptr.rs:166-169 | setting bits inside the mask adds them to the tag |
| ConstPtr.UnmarkingKeepsPtr | src/imp/ptr.rs:177-180 | clearing bits of the tag keeps the pointer half |
| ConstPtr.UnmarkingClearsTag | src/imp/ptr.rs:177-180 | clearing bits removes them from the tag |
| ConstPtr.SubTagUnmarks | src/imp/ptr.rs:166-180 | subtracting bits that were added to clear positions restores the word |
| ConstPtr.AddTagWithinTag | src/imp/ptr.rs:166-169 | adding tag bits that are clear in the tag returns, keeps the pointer half and ors them into the tag |
| ConstPtr.SubTagWithinTag | src/imp/ptr.rs:177-180 | subtracting tag bits that are set in the tag returns, keeps the pointer half and clears them from the tag |
| ConstPtr.AddSubTagInverse | src/imp/ptr.rs:166-180 | `sub_tag(add_tag(m, v), v) == m` for tag bits v that are clear in the tag |
| ConstPtr.AlignmentCheckForI32 | src/imp/ptr.rs:370-375 | for a 4-byte-aligned type, `compose(null, 0b111)` with 3 tag bits panics, while `compose(null, 0b11)` with 2 tag bits returns the marked null 0b11 |
| NightlyPtr.IntoUsize | src/nightly/raw.rs:57-59 | `from_usize` of the result gives back the marked pointer |
| NightlyPtr.Compose | src/nightly/raw.rs:67-69 | for an aligned pointer, the pointer half is the pointer and the tag is truncated to the mask |
| NightlyPtr.Decompose | src/nightly/raw.rs:77-79 | the pair (pointer half, tag half), with no tag bits in the pointer, which `compose` puts back together |
| NightlyPtr.ClearTag | src/nightly/raw.rs:72-74 | keeps the pointer half and sets the tag to 0 |
| NightlyPtr.IsNull | src/nightly/raw.rs:112-114 | true exactly when the pointer half is null, and exactly when the word equals its own tag |
| NightlyPtr.FromPair | src/nightly/raw.rs:154-166 | `From<(ptr, tag)>` decomposes to the pointer and the tag truncated to the mask |
| NightlyPtr.NullIsDefault | src/nightly/raw.rs:22-44 | `Default` is `null`, which is the word 0 and decomposes to (0, 0) |
| NightlyPtr.UsizeRoundTrip | src/nightly/raw.rs:52-59 | `into_usize(from_usize(w)) == w` for every word |
| NightlyPtr.ComposedIsNull | src/nightly/raw.rs:112-114 | a composed pointer is null exactly when its pointer part is null, whatever the tag |
| NightlyPtr.EqComparesBothHalves | src/nightly/raw.rs:191-196 | equality holds exactly when the pointer halves and the tag halves are both equal |
| NonNullPtr.IntoUsize | src/imp/non_null.rs:81-83 | a non-zero word from which `from_usize` gives back the pointer |
| NonNullPtr.IntoMarkedPtr | src/imp/non_null.rs:88-90 | the same non-zero word, tag included, as `into_usize` gives |
| NonNullPtr.MarkedPtrHalves | src/imp/non_null.rs:88-90 | the marked pointer has the same pointer half and tag |
| NonNullPtr.DecomposeNonNull | src/imp/non_null.rs:231-233 | for a valid pointer, the pointer half, which is non-null and has no tag bits |
| NonNullPtr.ComposeUnchecked | src/imp/non_null.rs:149-151 | for an aligned non-null pointer, a valid result with that pointer half and the truncated tag |
| NonNullPtr.Decompose | src/imp/non_null.rs:215-217 | the pointer half and the tag, which `compose_unchecked` puts back together |
| NonNullPtr.TryFromRaw | src/imp/non_null.rs:345-356 | `Err(Null(w))` exactly when the pointer half is null, and then the word is its own tag; otherwise a valid pointer with the same word |
| NonNullPtr.New | src/imp/non_null.rs:99-101 | `Err` carrying the tag exactly when the marked pointer is null; otherwise a valid pointer with the same word |
| NonNullPtr.Dangling | src/imp/non_null.rs:105-109 | when the mask is defined, the word is the alignment, which is valid and has tag 0 |
| NonNullPtr.DanglingIsAlignment | src/imp/non_null.rs:105-109 | when the mask is defined, `TAG_MASK + 1` is at most the alignment, so the `max` is the alignment, which is its own pointer half |
| NonNullPtr.TryCompose | src/imp/non_null.rs:124-133 | as documented: `Err(Null(tag))` exactly when the pointer half is null; a panic exactly when the pointer is non-null and misaligned; otherwise a valid pointer with that pointer and the truncated tag |
| NonNullPtr.TryComposeAsWritten | src/imp/non_null.rs:135-140 | as written: panics exactly when the pointer half is null, and otherwise returns `Err(Null(ptr))` |
| NonNullPtr.TryComposeAsWrittenRelease | src/imp/non_null.rs:135-152 | as written, in a release build (the `debug_assert_eq!` that `compose_unchecked` reaches is compiled out): `Ok` exactly when the pointer half is null, and that `Ok` holds a marked null that breaks the invariant; otherwise `Err(Null(ptr))` |
| NonNullPtr.ComposeAsWritten | src/imp/non_null.rs:119-121 | as written, over the as-written `try_compose` in a debug build: `compose` panics on every input |
| NonNullPtr.Compose | src/imp/non_null.rs:119-121 | over the corrected `try_compose` (NonNullPtr.TryCompose): panics exactly when `try_compose` does not succeed, which is exactly when the pointer has tag bits; otherwise a valid pointer with that pointer and the truncated tag |
| NonNullPtr.ClearTag | src/imp/non_null.rs:156-158 | a valid pointer with the same pointer half and tag 0 |
| NonNullPtr.SplitTag | src/imp/non_null.rs:164-167 | the pointer with its tag cleared and the old tag |
| NonNullPtr.SetTag | src/imp/non_null.rs:173-176 | a valid pointer with the same pointer half and the new tag truncated to the mask |
| NonNullPtr.UpdateTag | src/imp/non_null.rs:182-185 | a valid pointer with the same pointer half and `func(old tag)` truncated to the mask |
| NonNullPtr.AddTag | src/imp/non_null.rs:190-197 | under the safety condition that the sum keeps a non-null pointer half: a valid pointer whose word is the wrapping sum |
| NonNullPtr.SubTag | src/imp/non_null.rs:199-209 | under the safety condition that the difference keeps a non-null pointer half: a valid pointer whose word is the wrapping difference |
| NonNullPtr.ConversionsKeepValid | src/imp/non_null.rs:371-389 | a valid pointer converted to a `MarkedPtr` or a `NonNull` comes back unchanged through `new` and `try_from` |
| NonNullPtr.MarkedNullIsRefused | src/imp/non_null.rs:99-101 | `new(compose(null, tag))` is `Err(Null(tag))` |
| NonNullPtr.ComposeDecompose | src/imp/non_null.rs:119-121 | for an aligned non-null pointer and a tag that fits, `compose` returns and decomposes to both |
| NonNullPtr.AddSubTagInverse | src/imp/non_null.rs:190-209 | `sub_tag(add_tag(m, v), v) == m`, and its safety condition holds |
| NonNullPtr.TryComposeAsWrittenRefusesAligned | src/imp/non_null.rs:135-140 | for pointer 0x1000 with 2 tag bits and tag 1, the code returns `Err(Null(0x1000))` where the documented `try_compose` returns `Ok(0x1001)` |
| NonNullPtr.TryComposeAsWrittenNeverSucceeds | src/imp/non_null.rs:135-140 | in a debug build, the code as written never returns `Ok` |
| NonNullPtr.TryComposeAsWrittenReleaseAcceptsMarkedNull | src/imp/non_null.rs:135-140 | in a release build, word 1 with 2 tag bits gives `Ok(MarkedNonNull(1))`, which is not valid, where the documented `try_compose` gives `Err(Null(1))` |
| MaybeNulls.IsNull | src/imp/maybe.rs:19-25 | the exact complement of `is_not_null` |
| MaybeNulls.IsNotNull | src/imp/maybe.rs:28-34 | true exactly for `NotNull` |
| MaybeNulls.NotNullOption | src/imp/maybe.rs:137-143 | `Some(p)` exactly for `NotNull(p)` |
| MaybeNulls.Expect | src/imp/maybe.rs:60-63 | panics exactly on `Null`, and otherwise returns the pointer held |
| MaybeNulls.Unwrap | src/imp/maybe.rs:71-77 | the same as `expect`: panics exactly on `Null` |
| MaybeNulls.UnwrapOrElse | src/imp/maybe.rs:80-86 | what `unwrap` returns, and `func(tag)` where `unwrap` panics |
| MaybeNulls.UnwrapNull | src/imp/maybe.rs:94-100 | panics exactly on `NotNull`, and otherwise returns the tag held |
| MaybeNulls.Map | src/imp/maybe.rs:104-110 | never changes the variant, keeps `Null(tag)` as it is and applies `func` to a pointer |
| MaybeNulls.MapOrElse | src/imp/maybe.rs:124-134 | `unwrap_or_else(default)` of `map(func)` |
| MaybeNulls.MapOr | src/imp/maybe.rs:114-120 | `map_or_else` with a constant default |
| MaybeNulls.Default | src/imp/maybe.rs:247-252 | a null whose tag is 0 |
| MaybeNulls.FromOption | src/imp/maybe.rs:275-283 | `not_null` gives back the option; `None` becomes the default `Null(0)` |
| MaybeNulls.IntoMarkedPtr | src/imp/maybe.rs:169-175 | a pointer becomes its own marked pointer, a null becomes a null marked pointer carrying its tag |
| MaybeNulls.FromMarkedPtr | src/imp/maybe.rs:256-266 | `NotNull` with the same word exactly when the pointer half is non-null, otherwise `Null(decompose_tag)` |
| MaybeNulls.ClearTag | src/imp/maybe.rs:177-183 | same variant and pointer half, tag 0 |
| MaybeNulls.SplitTag | src/imp/maybe.rs:185-194 | the value with its tag cleared and the old tag |
| MaybeNulls.SetTag | src/imp/maybe.rs:196-202 | same variant and pointer half, tag truncated to the mask; a null becomes `Null(tag)` |
| MaybeNulls.SetPointerTag | src/imp/maybe.rs:196-202 | on a valid pointer, `set_tag` keeps the pointer half and sets the truncated tag |
| MaybeNulls.Decompose | src/imp/maybe.rs:204-213 | the pointer, if any, with its tag cleared, and the tag |
| MaybeNulls.DecomposePtr | src/imp/maybe.rs:215-221 | the pointer half of the marked pointer, null exactly for `Null` |
| MaybeNulls.DecomposeTag | src/imp/maybe.rs:224-230 | for a pointer, exactly the marked pointer's tag, with no bit outside the mask; for `Null(t)`, exactly t; in both cases its low bits are the marked pointer's tag |
| MaybeNulls.MaybeNullCell.Take | src/imp/maybe.rs:147-150 | returns the previous value and leaves `Null(0)` |
| MaybeNulls.MaybeNullCell.Replace | src/imp/maybe.rs:154-157 | returns the previous value and leaves `NotNull(value)` |
| MaybeNulls.OptionRoundTrip | src/imp/maybe.rs:268-283 | converting to `Option` and back is the identity on pointers and on the default null |
| MaybeNulls.MarkedPtrRoundTrip | src/imp/maybe.rs:256-266 | `into_marked_ptr(from(m)) == m` for every marked pointer |
| MaybeNulls.MaybeNullRoundTrip | src/imp/maybe.rs:169-175 | `from(into_marked_ptr(o)) == o` for valid values whose null tag fits the mask |
| MaybeNulls.AgreesWithNonNullNew | src/imp/maybe.rs:256-266 | `From<MarkedPtr>` agrees with `MarkedNonNull::new`: `NotNull(p)` exactly for `Ok(p)`, `Null(t)` exactly for `Err(Null(t))` |
| MaybeNulls.SplitNull | src/imp/maybe.rs:185-230 | on `Null(t)`: `split_tag` gives (`Null(0)`, t), the pointer half is null, the tag is t, and the marked pointer is `compose(null, t)` |
| MarkedOptions.Default | src/option.rs:7-12 | a null with tag 0 |
| MarkedOptions.IsNull | src/option.rs:17-23 | the exact complement of `is_value` |
| MarkedOptions.IsValue | src/option.rs:25-31 | true exactly for `Value` |
| MarkedOptions.Map | src/option.rs:33-39 | never changes the variant, keeps `Null(tag)` and applies `func` only to a value |
| MarkedOptions.Unwrap | src/option.rs:41-47 | panics exactly on `Null`, and otherwise returns the value held |
| MarkedOptions.MarkedOptionCell.Take | src/option.rs:49-52 | returns the previous option and leaves the default `Null(0)` |
| HighBits.Compose | src/arch64.rs:44-47 | keeps the pointer's address bits and ors the tag into the top 16 bits |
| HighBits.LayoutConstants | src/arch64.rs:51-53 | `TAG_MASK` is exactly bits 48..63, `POINTER_MASK` its complement, and `TAG_BITS == 64 - TAG_SHIFT` |
| HighBits.AddressHasNoTag | src/arch64.rs:44-53 | a pointer is below 2^48 exactly when it has no tag bits, exactly when it is its own pointer half; it then has tag 0 |
| HighBits.ComposeRoundTrip | src/arch64.rs:44-53 | for a pointer below 2^48, the pointer half of `compose(p, t)` is p and its tag is t |
| HighBits.Recompose | src/arch64.rs:44-53 | every word is the composition of its pointer half (below 2^48) and its tag |
| HighBits.HalvesDetermineWord | src/arch64.rs:44-53 | two words with equal halves are equal |
| NativePtr.IntoUsize | src/arch64/mod.rs:130-133 | `from_usize` of the result gives back the pointer |
| NativePtr.DecomposePtr | src/arch64/mod.rs:174-177 | the address below 2^48, with no bit of `MARK_MASK` |
| NativePtr.Decompose | src/arch64/mod.rs:167-170 | the pair of halves, which `compose` puts back together |
| NativePtr.Compose | src/arch64/mod.rs:160-163 | the pointer half of the pointer and its high bits ored with the tag |
| NativePtr.ClearTag | src/arch64/mod.rs:136-139 | keeps the pointer half and sets the tag to 0 |
| NativePtr.WithTag | src/arch64/mod.rs:142-145 | keeps the pointer half and sets the tag to the new one |
| NativePtr.SameLayout | src/arch64/mod.rs:81-87 | `MARK_MASK` and `POINTER_MASK` are those of the high-bit layout and `MARK_BITS == 64 - MARK_SHIFT` |
| NativePtr.NullIsZero | src/arch64/mod.rs:90-93 | `null` is the word 0 and decomposes to (0, 0) |
| NativePtr.UsizeRoundTrip | src/arch64/mod.rs:103-133 | `into_usize(from_usize(w)) == w` for every word |
| NativePtr.ComposeDecompose | src/arch64/mod.rs:160-170 | for a pointer below 2^48, `compose` then `decompose` gives back pointer and tag |
| NativePtr.WithTagTwice | src/arch64/mod.rs:142-145 | the second `with_tag` wins |
| NativePtr.AtomicMarkedNativePtr.Null | src/arch64/mod.rs:37-42 | a cell holding the word 0 |
| Ptr64.IntoUsize | src/macros/ptr.rs:38-40 | `from_usize` of the result gives back the pointer |
| Ptr64.DecomposePtr | src/arch64/imp/ptr.rs:56-58 | the address below 2^48, with no bit of `TAG_MASK` |
| Ptr64.Compose | src/arch64/imp/ptr.rs:42-44 | the high-bit `compose`: the pointer half of the pointer, and its high bits ored with the tag |
| Ptr64.IsNull | src/macros/ptr.rs:56-58 | true exactly when the pointer half is null, exactly when no bit of `POINTER_MASK` is set |
| Ptr64.ClearTag | src/macros/ptr.rs:64-66 | keeps the pointer half and sets the tag to 0 |
| Ptr64.Decompose | src/macros/ptr.rs:115-117 | the pair of halves, which `compose` puts back together |
| Ptr64.SplitTag | src/macros/ptr.rs:72-75 | the pointer with its tag cleared and the tag, which `compose` puts back together |
| Ptr64.SetTag | src/macros/ptr.rs:81-84 | keeps the pointer half and sets the tag |
| Ptr64.UpdateTag | src/macros/ptr.rs:90-93 | keeps the pointer half and sets the tag to `func(old tag)` |
| Ptr64.SameLayout | src/arch64/imp/ptr.rs:22-24 | `TAG_MASK` and `POINTER_MASK` are those of the high-bit layout and `TAG_BITS == 64 - TAG_SHIFT` |
| Ptr64.NullIsZero | src/macros/ptr.rs:6-8 | `null` is the word 0, decomposes to (0, 0) and is null |
| Ptr64.UsizeRoundTrip | src/macros/ptr.rs:22-40 | `into_usize(from_usize(w)) == w` for every word |
| Ptr64.ComposeDecompose | src/arch64/imp/ptr.rs:42-66 | for a pointer below 2^48, `compose` then `decompose` gives back pointer and tag |
| Ptr64.MarkedNullIsNull | src/macros/ptr.rs:56-58 | `compose(null, tag)` is null and keeps the tag |
| Ptr64.AddSubTagInverse | src/macros/ptr.rs:99-109 | wrapping `add_tag` and `sub_tag` undo each other for every word and value |
| AtomicPtr.TagOr | src/imp/atomic.rs:434-436 | the word `fetch_or` stores keeps the pointer half and ors the value's tag bits into the tag |
| AtomicPtr.TagAnd | src/imp/atomic.rs:483-485 | the word `fetch_and` stores keeps the pointer half and ands the tag with the value |
| AtomicPtr.AtomicMarkedPtr.Null | src/imp/atomic.rs:36-38 | a cell holding the zero word |
| AtomicPtr.AtomicMarkedPtr.New | src/imp/atomic.rs:44-46 | a cell from which `into_inner` gives back the pointer |
| AtomicPtr.AtomicMarkedPtr.TagMask | src/imp/atomic.rs:284 | the number 2^`TAG_BITS` - 1 |
| AtomicPtr.AtomicMarkedPtr.PointerMask | src/imp/atomic.rs:289 | disjoint from `TAG_MASK`, and together they cover the word |
| AtomicPtr.AtomicMarkedPtr.Load | src/imp/atomic.rs:75-85 | panics exactly for `Release` and `AcqRel`, and otherwise returns the marked pointer held |
| AtomicPtr.AtomicMarkedPtr.Store | src/imp/atomic.rs:96-106 | panics exactly for `Acquire` and `AcqRel`, leaving the cell unchanged, and otherwise the cell then holds the new pointer |
| AtomicPtr.AtomicMarkedPtr.Swap | src/imp/atomic.rs:138-140 | returns the previous pointer and installs the new one |
| AtomicPtr.AtomicMarkedPtr.CompareAndSwap | src/imp/atomic.rs:180-191 | returns the previous pointer; the cell takes the replacement exactly when that equals `current` |
| AtomicPtr.AtomicMarkedPtr.CompareExchange | src/imp/atomic.rs:217-228 | panics, with the cell unchanged, exactly when the failure ordering is `Release`, `AcqRel` or stronger than the success ordering; otherwise `Ok(current)` with the replacement installed exactly when the cell held `current`, otherwise `Err(observed)` with the cell unchanged |
| AtomicPtr.AtomicMarkedPtr.CompareExchangeWeak | src/imp/atomic.rs:260-271 | panics, with the cell unchanged, exactly on the failure orderings `compare_exchange` refuses; otherwise a success is always a true one; it fails only spuriously or on a mismatch, with `Err(observed)` and the cell unchanged |
| AtomicPtr.AtomicMarkedPtr.FetchAdd | src/imp/atomic.rs:336-339 | with `value < TAG_MASK`, returns the previous pointer and stores the wrapping sum |
| AtomicPtr.AtomicMarkedPtr.FetchSub | src/imp/atomic.rs:385-388 | with `value < TAG_MASK`, returns the previous pointer and stores the wrapping difference |
| AtomicPtr.AtomicMarkedPtr.FetchOr | src/imp/atomic.rs:434-436 | returns the previous pointer and stores `TagOr`, which never changes the pointer half |
| AtomicPtr.AtomicMarkedPtr.FetchAnd | src/imp/atomic.rs:483-485 | returns the previous pointer and stores `TagAnd`, which never changes the pointer half |
| AtomicPtr.StoreThenLoad | src/imp/atomic.rs:75-106 | `store(v)` then `load` panics exactly when either ordering is refused, and otherwise returns v |
| AtomicPtr.TagAndUndoesTagOr | src/imp/atomic.rs:434-485 | `fetch_and(!v)` after `fetch_or(v)` of tag bits clear in the tag restores the word |
| AtomicPtr.AddOfClearTagBitsIsOr | src/imp/atomic.rs:336-436 | `fetch_add` of tag bits clear in the tag cannot carry into the pointer: it stores what `fetch_or` stores |
| LegacyAtomic.AtomicMarkedPtr.Null | src/atomic.rs:33-38 | a cell holding the zero word |
| LegacyAtomic.AtomicMarkedPtr.New | src/atomic.rs:42-47 | a cell from which `into_inner` gives back the pointer |
| LegacyAtomic.AtomicMarkedPtr.MarkMask | src/atomic.rs:309 | the number 2^`MARK_BITS` - 1 |
| LegacyAtomic.AtomicMarkedPtr.PointerMask | src/atomic.rs:311 | disjoint from `MARK_MASK`, and together they cover the word |
| LegacyAtomic.AtomicMarkedPtr.Load | src/atomic.rs:72-96 | panics exactly for `Release` and `AcqRel`, and otherwise returns the marked pointer held |
| LegacyAtomic.AtomicMarkedPtr.Store | src/atomic.rs:106-131 | panics exactly for `Acquire` and `AcqRel`, leaving the cell unchanged, and otherwise the cell then holds the new pointer |
| LegacyAtomic.AtomicMarkedPtr.Swap | src/atomic.rs:154-156 | returns the previous pointer and installs the new one |
| LegacyAtomic.AtomicMarkedPtr.CompareAndSwap | src/atomic.rs:159-170 | returns the previous pointer; the cell takes the replacement exactly when that equals `current` |
| LegacyAtomic.AtomicMarkedPtr.CompareExchange | src/atomic.rs:173-184 | panics, with the cell unchanged, exactly when the failure ordering is `Release`, `AcqRel` or stronger than the success ordering; otherwise `Ok(previous)`, which equals `current`, with the replacement installed exactly on a match, otherwise `Err(observed)` with the cell unchanged |
| LegacyAtomic.AtomicMarkedPtr.CompareExchangeWeak | src/atomic.rs:187-198 | panics, with the cell unchanged, exactly on the failure orderings `compare_exchange` refuses; otherwise a success is always a true one; it fails only spuriously or on a mismatch, with the cell unchanged |
| LegacyAtomic.AtomicMarkedPtr.FetchAdd | src/atomic.rs:207-209 | returns the previous pointer and stores the wrapping sum of the whole word |
| LegacyAtomic.AtomicMarkedPtr.FetchSub | src/atomic.rs:212-214 | returns the previous pointer and stores the wrapping difference of the whole word |
| LegacyAtomic.AtomicMarkedPtr.FetchAnd | src/atomic.rs:234-236 | as written: returns the previous pointer and ands the unmasked value into the whole word |
| LegacyAtomic.AtomicMarkedPtr.FetchNand | src/atomic.rs:256-258 | as written: returns the previous pointer and nands the unmasked value into the whole word |
| LegacyAtomic.AtomicMarkedPtr.FetchOr | src/atomic.rs:278-280 | as written: returns the previous pointer and ors the unmasked value into the whole word |
| LegacyAtomic.AtomicMarkedPtr.FetchXor | src/atomic.rs:300-302 | as written: returns the previous pointer and xors the unmasked value into the whole word |
| LegacyAtomic.TagNand | src/atomic.rs:238-244 | as documented: keeps the pointer half and sets the tag to the nand of the tag and the value, within the mask |
| LegacyAtomic.TagXor | src/atomic.rs:282-288 | as documented: keeps the pointer half and xors the value's tag bits into the tag |
| LegacyAtomic.UnmaskedAndKeepsPointerIff | src/atomic.rs:216-236 | the unmasked `fetch_and` keeps the pointer exactly when the value has every pointer bit that the word has |
| LegacyAtomic.UnmaskedOrKeepsPointerIff | src/atomic.rs:260-280 | the unmasked `fetch_or` keeps the pointer exactly when the value's pointer bits are already set in the word |
| LegacyAtomic.UnmaskedXorKeepsPointerIff | src/atomic.rs:282-302 | the unmasked `fetch_xor` keeps the pointer exactly when the value has no pointer bits |
| LegacyAtomic.UnmaskedNandKeepsPointerIff | src/atomic.rs:238-258 | the unmasked `fetch_nand` keeps the pointer exactly when every pointer bit of the word is set and the value has none |
| LegacyAtomic.FittingValueOrAgrees | src/atomic.rs:260-280 | for a value within the mask, the unmasked `fetch_or` stores what the masked one stores |
| LegacyAtomic.FittingValueXorAgrees | src/atomic.rs:282-302 | for a value within the mask, the unmasked `fetch_xor` stores what the masked one stores |
| LegacyAtomic.UnmaskedOperationsChangePointer | src/atomic.rs:216-302 | on the word 0x1002 with 2 mark bits, the unmasked and, or, xor and nand each change the pointer, while the masked ones keep 0x1000 |
| DwcasPtr.Null | src/arch64/dwcas.rs:141-143 | decomposes to the null pointer and tag 0 |
| DwcasPtr.Default | src/arch64/dwcas.rs:129-134 | decomposes to the null pointer and tag 0, like `null` |
| DwcasPtr.New | src/arch64/dwcas.rs:153-155 | decomposes to (ptr, 0) |
| DwcasPtr.Compose | src/arch64/dwcas.rs:159-161 | decomposes to exactly the pointer and the 64-bit tag given, with no truncation |
| DwcasPtr.Decompose | src/arch64/dwcas.rs:166-168 | the pair of `ptr` and `tag`, which rebuilds the value |
| DwcasPtr.Eq | src/arch64/dwcas.rs:254-259 | equal exactly when both words are equal |
| DwcasPtr.CmpU64 | src/arch64/dwcas.rs:279-287 | `Less`, `Equal` and `Greater` exactly for the unsigned order of two words |
| DwcasPtr.PartialCmpU64 | src/arch64/dwcas.rs:263-271 | always defined: `Less`, `Equal` or `Greater` exactly when the first word is below, equal to or above the second |
| DwcasPtr.Cmp | src/arch64/dwcas.rs:279-287 | lexicographic order, pointer first and then tag: `Equal` exactly for equal pairs |
| DwcasPtr.PartialCmpAsWritten | src/arch64/dwcas.rs:263-271 | as written: always defined, `Equal` whenever the pointers are equal, and otherwise `cmp` |
| DwcasPtr.PartialCmp | src/arch64/dwcas.rs:263-271 | corrected: always `Some(cmp)`, so `Some(Equal)` exactly when `eq` holds |
| DwcasPtr.AtomicTagPtr.New | src/arch64/dwcas.rs:45-47 | a cell holding the pair |
| DwcasPtr.AtomicTagPtr.Default | src/arch64/dwcas.rs:31-36 | a cell holding `null` |
| DwcasPtr.AtomicTagPtr.Cmpxchg16b | src/arch64/dwcas.rs:93-96 | the instruction: compares both words, writes `desired` on a match, and returns the pair held before |
| DwcasPtr.AtomicTagPtr.CompareExchange | src/arch64/dwcas.rs:85-104 | the intrinsic panics, with the cell unchanged, exactly when the failure ordering is `Release`, `AcqRel` or stronger than the success ordering; otherwise `Ok(previous)` with the replacement installed exactly when the cell held `current`, otherwise `Err(observed)` with the cell unchanged |
| DwcasPtr.AtomicTagPtr.CompareAndSwap | src/arch64/dwcas.rs:72-82 | returns the previous pair in both branches; the cell changes exactly on a match |
| DwcasPtr.AtomicTagPtr.Load | src/arch64/dwcas.rs:58-69 | the `assert!` panics exactly for `Release` and `AcqRel`; otherwise the pair held; the cell is unchanged either way |
| DwcasPtr.LoadAfterNew | src/arch64/dwcas.rs:296-300 | a new cell loaded with `SeqCst` returns, without panicking, the pair it was given, whatever its tag |
| DwcasPtr.ComposeDecomposeRoundTrip | src/arch64/dwcas.rs:159-168 | `decompose(compose(p, t)) == (p, t)` for every pointer and 64-bit tag |
| DwcasPtr.NullIsDefault | src/arch64/dwcas.rs:129-155 | `null`, `Default`, `new(null)` and `compose(null, 0)` are one pair |
| DwcasPtr.CmpAntisymmetric | src/arch64/dwcas.rs:279-287 | swapping the sides reverses `cmp` |
| DwcasPtr.CmpTransitive | src/arch64/dwcas.rs:279-287 | `cmp` is transitive |
| DwcasPtr.PartialCmpAsWrittenDisagrees | src/arch64/dwcas.rs:263-271 | for (0x1000, 1) and (0x1000, 2), which are unequal and ordered `Less`, the code's `partial_cmp` says `Equal` |
| DwcasPtr.PartialCmpAsWrittenAgreesIff | src/arch64/dwcas.rs:263-271 | the code's `partial_cmp` agrees with the corrected one exactly when the pointers differ or the tags are equal |
| X86Ptr.Null | src/x86_64.rs:170-172 | decomposes to (0, 0) |
| X86Ptr.Default | src/x86_64.rs:321-323 | decomposes to the null pointer and tag 0, like `null` |
| X86Ptr.New | src/x86_64.rs:178-180 | decomposes to (ptr, 0) |
| X86Ptr.Compose | src/x86_64.rs:197-199 | decomposes to exactly the pointer and the 64-bit tag |
| X86Ptr.Cast | src/x86_64.rs:204-206 | keeps the pointer and the tag |
| X86Ptr.Decompose | src/x86_64.rs:219-221 | the pair of halves, which rebuilds the value |
| X86Ptr.FromU128 | src/x86_64.rs:339-357 | reads a 128-bit number as the pair whose tag times 2^64 plus pointer is that number |
| X86Ptr.IntoU128 | src/x86_64.rs:211-213 | the 128-bit number that `FromU128` reads back as the same pair |
| X86Ptr.StrongestFailureOrdering | src/x86_64.rs:360-370 | a valid failure ordering for `order`, the strongest one, and `order` itself when that is a load ordering |
| X86Ptr.AtomicMarkedPtr128.New | src/x86_64.rs:67-70 | a cell from which `into_inner` gives back the pair |
| X86Ptr.AtomicMarkedPtr128.Dwcas | extern/dwcas.c:3-17 | the C routine: `setz` gives 1 exactly when the cell held `expected`, and the cell then holds `desired` |
| X86Ptr.AtomicMarkedPtr128.Cmpxchg16bAsWritten | src/x86_64.rs:332-343 | as written: the cell is updated as the instruction does, but the result is `desired` on a match and `expected` on a mismatch |
| X86Ptr.AtomicMarkedPtr128.Cmpxchg16b | src/x86_64.rs:332-343 | corrected: returns the pair held before the step |
| X86Ptr.AtomicMarkedPtr128.CompareExchangeAsWritten | src/x86_64.rs:118-135 | as written: `Ok(current)` exactly on a match, but `Err(replacement)` rather than the observed pair on a mismatch |
| X86Ptr.AtomicMarkedPtr128.CompareExchange | src/x86_64.rs:118-135 | corrected: `Ok(current)` with the replacement installed exactly on a match, otherwise `Err(observed)` with the cell unchanged |
| X86Ptr.AtomicMarkedPtr128.CompareAndSwap | src/x86_64.rs:105-115 | over the corrected `compare_exchange` (X86Ptr.AtomicMarkedPtr128.CompareExchange): returns the previous pair in both branches; the cell changes exactly on a match |
| X86Ptr.AtomicMarkedPtr128.CompareAndSwapAsWritten | src/x86_64.rs:105-115 | as written, over the as-written `compare_exchange`: returns `current` after a match and `replacement` otherwise; the cell changes exactly on a match |
| X86Ptr.AtomicMarkedPtr128.Load | src/x86_64.rs:87-102 | panics exactly for `Release` and `AcqRel` (the `_ => panic!()` arm); otherwise, over the corrected `compare_and_swap`, the pair held; the cell is unchanged either way |
| X86Ptr.AtomicMarkedPtr128.LoadAsWritten | src/x86_64.rs:87-102 | as written: panics exactly for `Release` and `AcqRel`; otherwise, over the as-written `compare_and_swap`, `null` from every cell; the cell is unchanged either way |
| X86Ptr.U128RoundTrip | src/x86_64.rs:211-213 | `into_u128` of the pair read from a number is that number |
| X86Ptr.IntoU128Injective | src/x86_64.rs:211-213 | two pairs have the same `u128` exactly when they are equal, so comparing numbers compares both words |
| X86Ptr.NullIsZero | src/x86_64.rs:170-180 | `Default`, `null`, `new(null)` and `compose(null, 0)` are one pair, whose `u128` is 0 |
| X86Ptr.StrongestFailureIsLoadOrdering | src/x86_64.rs:360-370 | the result is never `Release` or `AcqRel` |
| X86Ptr.Cmpxchg16bAsWrittenInverts | src/x86_64.rs:339-342 | on a cell holding (0x1000, 1), a failed exchange reports `expected` and a successful one reports `desired`, both misread by `compare_exchange` |
| X86Ptr.CompareExchangeAsWrittenReportsReplacement | src/x86_64.rs:126-133 | on a cell holding (0x1000, 1), a failed exchange returns `Err((0x2000, 0))`, where the corrected one returns `Err((0x1000, 1))` |
| X86Ptr.LoadAfterNew | src/x86_64.rs:95-102 | over the corrected `compare_exchange`: a new cell loaded with `SeqCst` returns, without panicking, the pair it was given |
| X86Ptr.LoadAsWrittenReturnsNull | src/x86_64.rs:95-133 | a cell holding (0x1000, 1) loads as (0, 0) as written, and as (0x1000, 1) when corrected |

## Left out

- Dereferencing (`as_ref`, `as_mut`, `decompose_ref`, `decompose_mut` and their `_unbounded` forms) is left out. It depends on the validity of memory and on lifetimes, which a word-level model cannot see.
- `MarkedPtr128::as_ref` is a `todo!()`. The bodies of src/macros/non_null.rs and src/arch64/imp/non_null.rs are also `todo!()`. There is no behaviour to model there.
- Type-level `cast<U>` and the `From` conversions from references and `NonNull` are not modelled. The conversions only change a word's Rust type. `cast` changes the pointee type and also checks that the target type's alignment leaves N bits free: the `illegal_cast` test at src/imp/ptr.rs:384-389 expects a panic when casting to `i8` with N = 2. That check is left out; the macro that defines `MarkedPtr::cast` is not part of this model. Exceptions are X86Ptr.Cast and the raw-word `TryFrom` impls, which are modelled.
- `Clone`, `Copy`, `Debug`, `Pointer`, `Hash`, and `PartialOrd`/`Ord` on single-word pointers are not modelled. They are boilerplate over the word. src/macros.rs, src/macros/atomic.rs and src/macros/doc.rs are not part of this model.
- Inter-thread behaviour of the atomic cells is not modelled: happens-before and interleavings. Each operation is one atomic step, and an ordering matters only through the panics it causes: every `load`, `store`, `compare_exchange` and `compare_exchange_weak` returns an `Outcome` that is `Panics` exactly for the orderings it refuses, and `Panics` leaves the cell unchanged. `compare_exchange_weak` gets its spurious failure as a parameter.
- src/arch64/imp/atomic.rs, src/nightly/atomic.rs, src/traits.rs and src/imp/mod.rs are not part of this model. The first only invokes macros; the others are transmutes and trait signatures.
- extern/dwcas.h and build.rs are not part of this model. extern/dwcas.c becomes the one atomic step X86Ptr.AtomicMarkedPtr128.Dwcas, with the flag that `setz` produces.
- The address that `compare_exchange` at src/x86_64.rs:126 passes is wrong. It casts `&self`, the address of the local reference, where the cell's own address was meant. The model exchanges the cell itself.
- The model follows a debug build (`debug_assertions` on) wherever the two profiles differ; the lines below name each member this affects.
- Codec.Compose: its `debug_assert_eq!` is a precondition rather than a panic, so callers must pass a pointer with no tag bits. A release build does not check this.
- AtomicPtr.AtomicMarkedPtr.FetchAdd: its `debug_assert!` on `value < TAG_MASK` is a precondition; a release build does not check it. The same holds for AtomicPtr.AtomicMarkedPtr.FetchSub.
- ConstPtr.AddTag: overflow of the plain `+` is a panic, as in a debug build. A release build wraps around instead, giving the wrapping sum.
- ConstPtr.SubTag: underflow of the plain `-` is a panic, as in a debug build. A release build wraps around instead, giving the wrapping difference.
- NonNullPtr.TryCompose: a misaligned non-null pointer panics, as in a debug build. The panic comes from the `debug_assert_eq!` of src/lib.rs:124, which `compose_unchecked` reaches. A release build would compose it without the check.
- NonNullPtr.TryComposeAsWritten: the null-pointer-half arm panics in that same `debug_assert_eq!`, as in a debug build. NonNullPtr.TryComposeAsWrittenRelease models the release build, where that arm returns `Ok` of a marked null.
- MaybeNulls.IntoMarkedPtr: the null case composes the null with the tag without the alignment assertion of `MarkedPtr::compose`. It assumes `T` keeps N low bits free. Only ConstPtr.Compose, ConstPtr.SetTag and ConstPtr.UpdateTag model that assertion as a panic.
- For the typenum (src/raw.rs), nightly (src/nightly/raw.rs) and non-null (src/imp/non_null.rs) pointers, a type whose alignment is too small for N fails when its `MARK_MASK`/`TAG_MASK` constant is evaluated (the unsigned `lower_bits - n` of src/lib.rs:118). It is rejected before run time, so those models take N as admissible; Codec.MarkMask states the check.
- The `MarkedNonNull` invariant is a predicate `Valid`: the pointer half is not null. Operations the source marks as `unsafe` carry it as a precondition, as do those that rely on it.
- The 16-bit-tag `add_tag`/`sub_tag` of the high-bit pointer (Ptr64.AddTag, Ptr64.SubTag) carry no contract of their own. Their property is the inverse lemma Ptr64.AddSubTagInverse.
- HighBits: counting tag values modulo 2^16 through a wrapping add of a shifted value is not proved.
- The double-word types keep their words as integers below 2^64. They only compare and combine words and never mask them.
- src/arch64/dwcas.rs calls the `core::arch` `cmpxchg16b` intrinsic, and src/x86_64.rs calls the C routine through its ffi wrapper. The intrinsic's panics on an invalid ordering pair are the `Panics` outcome of DwcasPtr.AtomicTagPtr.CompareExchange. The ffi wrapper ignores orderings, so X86Ptr.AtomicMarkedPtr128.CompareExchange never panics.
- X86Ptr.AtomicMarkedPtr128.CompareExchangeAsWritten uses the corrected ffi wrapper so that it isolates the `Err(new)` defect. Each of the two defects is exhibited on its own.
- `MarkedNonNull::dangling` in src/raw.rs is modelled with the alignment as its word (TypenumPtr.Dangling). The typenum `new_unchecked` and `into_non_null` are word-preserving conversions without contracts.

## Findings

| source | as written | input that shows it | evidently intended | confidence | as-written member | corrected member |
|---|---|---|---|---|---|---|
| src/imp/non_null.rs:135-140 | the match arms of `try_compose` are swapped: a null pointer half goes to `compose_unchecked` and any real pointer gives `Err(Null(ptr))` | pointer 0x1000, 2 tag bits, tag 1: returns `Err(Null(0x1000))`. In a debug build it never returns `Ok`, so `compose` (lines 119-121) panics on every input (NonNullPtr.ComposeAsWritten). In a release build, word 1 with 2 tag bits returns `Ok(MarkedNonNull(1))`, a marked null the type excludes (NonNullPtr.TryComposeAsWrittenReleaseAcceptsMarkedNull) | `Err(Null(tag))` exactly when the pointer half is null, as the doc at lines 124-133 says | high, not executed | NonNullPtr.TryComposeAsWritten | NonNullPtr.TryCompose |
| src/atomic.rs:216-302 | `fetch_and`, `fetch_nand`, `fetch_or` and `fetch_xor` apply the value to the whole word, although the docs say the pointer cannot change | word 0x1002, 2 mark bits: `fetch_or(0x2000)` makes the pointer 0x3000 | mask the value to the tag bits, as src/imp/atomic.rs does | high, not executed | LegacyAtomic.UnmaskedOperationsChangePointer | AtomicPtr.TagOr |
| src/arch64/dwcas.rs:263-271 | `partial_cmp` compares the tag of `self` with itself | (0x1000, 1) and (0x1000, 2): `Some(Equal)`, although they are unequal and `cmp` gives `Less` | compare `self.1` with `other.1`, agreeing with `cmp` | high, not executed | DwcasPtr.PartialCmpAsWritten | DwcasPtr.PartialCmp |
| src/x86_64.rs:130-133 | a failed `compare_exchange` returns `Err(new)`, the pair it tried to store | cell (0x1000, 1), exchange (0x1000, 0) for (0x2000, 0): `Err((0x2000, 0))`. As a consequence `compare_and_swap` (lines 105-115) returns `current` or `new`, and `load` (lines 95-102) returns null from every cell: a cell holding (0x1000, 1) loads as (0, 0) (X86Ptr.LoadAsWrittenReturnsNull) | `Err` of the observed pair, as src/arch64/dwcas.rs:98-102 does | high, not executed | X86Ptr.CompareExchangeAsWrittenReportsReplacement | X86Ptr.AtomicMarkedPtr128.CompareExchange |
| src/x86_64.rs:339-342 | the ffi wrapper maps the C result 0 to `old`, but `setz` yields 1 on success, so success and failure are swapped | cell (0x1000, 1), expected (0x1000, 0): fails yet reports `expected`, which reads as success | return the observed pair, equal to `old` exactly on success | high, not executed | X86Ptr.Cmpxchg16bAsWrittenInverts | X86Ptr.AtomicMarkedPtr128.Cmpxchg16b |

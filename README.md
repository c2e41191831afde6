# rkyv relative pointers and owned-pointer validation, in Dafny

rkyv is a zero-copy serialization framework. An archive is a byte buffer in
which values point at each other through *relative pointers*: a signed
offset (`Offset`, an `i32`, or an `i64` with the `long_rel_ptrs` feature)
measured from the pointer's own address, followed inline by an *augment*
that completes the pointer. A sized pointee needs no augment. A slice or a
string slice needs a `u32` length. This project models three parts of that
design.

* **Relative-pointer arithmetic** (module `RelPtrs`, file `relptr.dfy`).
  It covers `RelPtr::new` with its two's complement narrowing (module
  `Ints`, file `ints.dfy`), and the accessors `base`, `offset`, `augment`,
  `as_ptr` and `as_mut_ptr`. It also covers `ArchivePtr::augment_ptr`,
  `ArchiveUnsized::make_augment` and `resolve_unsized`, the byte image of a
  relative pointer, and the two trusted entry points `archived_value` and
  `archived_unsized_value`.
* **The write protocol of the documentation examples** (module
  `Serialization`, file `serializer.dfy`).
  * A `Serializer` class owns a byte buffer that grows as it is written.
    It has `pos`, `write` and `align_for`, and a write that would exceed
    its capacity fails.
  * `OwnedStr` writes its bytes first, then resolves its relative pointer
    from `pos + offset_of!(ptr)`. Archiving one and reading it back with
    `as_str` gives the original string.
  * `Block::serialize_unsized` writes every dependency first, then aligns
    and writes the footprints. `archive_ref` adds the relative pointer to
    the block. Following that pointer with `archived_unsized_value` gives
    back the head `"Numbers 1-4"` and the tail `[1, 2, 3, 4]`.
* **Owned-pointer validation** (module `Validation`, file `validation.dfy`).
  * `OwnedPointerError` with its `Display` and `source` delegation.
  * The shared `check_bytes` protocol of `ArchivedString`, `ArchivedBox<T>`
    and `ArchivedVec<T>`, in this order:
    1. Check the relative pointer's own bytes.
    2. `check_rel_ptr`.
    3. `augment_ptr` and the pointee's layout.
    4. `claim_bytes`.
    5. The pointee's content check.
  * The protocol is stated as a specification function that returns the
    outcome, the claimed ranges afterwards and the trace of calls made. It
    is also written as the methods of a `ValidationContext` class whose
    `claimed` field the checks update.

Addresses are integers. A buffer that starts at address `start` keeps its
byte at position `pos` at address `start + pos`. Every failure path of the
source is modelled as a `Result` or `Outcome` value (module `Wrappers`,
file `wrappers.dfy`).

## Model

| member | source | states |
|---|---|---|
| Ints.Wrap | rkyv/src/lib.rs:495-500 | `x as Offset` always gives a value representable in the offset width, and gives `x` itself when `x` already fits |
| Ints.WrapCongruent | rkyv/src/lib.rs:495-500 | narrowing keeps the low bits: the result has the same two's complement bit pattern as the input |
| Ints.WrapUnique | rkyv/src/lib.rs:495-500 | the narrowing is the only representable value with the input's bit pattern, so it is exactly Rust's truncating cast |
| Ints.SignedRoundTrip | rkyv/src/lib.rs:505-510 | decoding the little-endian image of a representable offset gives the offset back |
| Ints.U32RoundTrip | rkyv/src/lib.rs:505-510 | decoding the little-endian image of a `u32` length gives the length back |
| Ints.LeEncodeDecode | rkyv/src/lib.rs:505-510 | the other half of the round trip for the little-endian field images: encoding the value decoded from `n` bytes gives those bytes back |
| RelPtrs.AugmentPtr | rkyv/src/lib.rs:429-432 | `augment_ptr` keeps the data address; the pointer is thin exactly for a sized pointee and otherwise carries the augment's length |
| RelPtrs.AugmentPtrMut | rkyv/src/lib.rs:429-432 | the mutable form is the same pointer with mutable access |
| RelPtrs.New | rkyv/src/lib.rs:519-525 | `new(from, to, a)` gives a well-formed pointer that keeps `a` unchanged; its offset is `to - from` exactly whenever that difference fits in `Offset` |
| RelPtrs.IsizeDelta | rkyv/src/lib.rs:521 | `to as isize - from as isize` always lies in the range of `isize`, whatever the two addresses |
| RelPtrs.NewCongruent | rkyv/src/lib.rs:519-525 | whatever the distance, the stored offset has the bit pattern of `to - from` |
| RelPtrs.NewStoresWrappedDelta | rkyv/src/lib.rs:519-525 | whatever the distance, the pointer is the width-truncated difference `Wrap(to - from)` with the given augment, even though the source computes it by way of `isize` |
| RelPtrs.Base | rkyv/src/lib.rs:527-529 | `base()` is the address of the relative pointer itself |
| RelPtrs.OffsetOf | rkyv/src/lib.rs:532-534 | `offset()` widens the stored offset to `isize` without changing it |
| RelPtrs.AugmentOf | rkyv/src/lib.rs:536-538 | `augment()` gives the stored augment unchanged |
| RelPtrs.AsPtr | rkyv/src/lib.rs:541-545 | `as_ptr` at address `at` is `augment_ptr(at + offset, augment)` |
| RelPtrs.AsMutPtr | rkyv/src/lib.rs:549-553 | `as_mut_ptr` at address `at` is `augment_ptr_mut(at + offset, augment)` |
| RelPtrs.AsMutPtrAgreesWithAsPtr | rkyv/src/lib.rs:541-553 | `as_mut_ptr` reaches the same address with the same metadata as `as_ptr`; only the access differs |
| RelPtrs.AccessorsOfNew | rkyv/src/lib.rs:519-538 | for a pointer built by `new(from, to, a)` and placed at `from`, `base()` is `from`, `offset()` is the narrowed distance and `augment()` is `a` |
| RelPtrs.FollowNew | rkyv/src/lib.rs:519-553 | for a pointer built by `new(from, to, a)` and placed at `from`, where the distance fits, `as_ptr` and `as_mut_ptr` both reach `to` with `a` unchanged |
| RelPtrs.MakeAugment | rkyv/src/lib.rs:360-364 | `make_augment` gives a slice or string length of the right kind; the length is the value's own whenever it is below 2^32 (`as u32`) |
| RelPtrs.ResolveUnsized | rkyv/src/lib.rs:424-426 | `resolve_unsized(from, to)` gives a well-formed pointer whose augment is `make_augment()`; its offset is `to - from` whenever that fits, and its length is the value's own whenever that is below 2^32 |
| RelPtrs.FollowResolveUnsized | rkyv/src/lib.rs:424-426 | placed at `from`, the pointer `resolve_unsized` built leads to `to` and carries the value's own length |
| RelPtrs.FieldsSize | rkyv/src/lib.rs:505-510 | the fields of a relative pointer take no more bytes than its footprint; the rest is padding |
| RelPtrs.RelPtrBytesRoundTrip | rkyv/src/lib.rs:505-510 | a relative pointer's byte image (offset, then augment, then padding) decodes to the same pointer |
| RelPtrs.DecodeIgnoresPadding | rkyv/src/lib.rs:505-510 | two footprints whose field bytes agree decode to the same pointer, whatever their padding bytes hold |
| RelPtrs.ReadRelPtr | rkyv/src/lib.rs:505-510 | any bytes read as a relative pointer of a given augment kind give a well-formed pointer of that kind |
| RelPtrs.ReadWrittenRelPtr | rkyv/src/lib.rs:505-510 | a relative pointer written at `pos` reads back unchanged |
| RelPtrs.ReadRelPtrFields | rkyv/src/lib.rs:505-510 | a relative pointer whose field bytes were written at `pos` reads back unchanged, whatever the padding after them holds |
| RelPtrs.ArchivedValue | rkyv/src/lib.rs:625-627 | `archived_value(bytes, pos)` is a thin view that starts exactly at position `pos` |
| RelPtrs.ArchivedValueMut | rkyv/src/lib.rs:640-645 | the mutable entry point gives the same view, with mutable access |
| RelPtrs.ArchivedUnsizedValue | rkyv/src/lib.rs:657-660 | `archived_unsized_value(bytes, pos)` reads the pointer stored at `pos` and gives the view at `pos + offset`, with the stored augment |
| RelPtrs.ArchivedUnsizedValueMut | rkyv/src/lib.rs:673-679 | the mutable entry point follows the same pointer to the same address and metadata |
| RelPtrs.ArchivedUnsizedValueRelocates | rkyv/src/lib.rs:657-660 | position independence: moving the whole buffer moves the followed view by the same distance |
| RelPtrs.ArchivedUnsizedValueOfNew | rkyv/src/lib.rs:657-660 | where the field bytes at `pos` are those of `new(pos, to, a)`, whatever the padding holds, and the distance fits, `archived_unsized_value` reaches position `to` with augment `a` |
| Serialization.PadLen | rkyv/src/lib.rs:384-386 | the padding `align_for` adds reaches the next multiple of the alignment, is smaller than the alignment, and is zero on an aligned position |
| Serialization.Serializer.constructor | rkyv/src/lib.rs:232 | a new serializer starts with an empty buffer |
| Serialization.Serializer.Pos | rkyv/src/lib.rs:226 | `pos()` is the number of bytes written so far, which is where the next byte goes |
| Serialization.Serializer.Write | rkyv/src/lib.rs:227 | `write` appends exactly the given bytes when they fit in the capacity; otherwise it fails and the buffer is unchanged |
| Serialization.Serializer.AlignFor | rkyv/src/lib.rs:384-386 | `align_for` appends zeros up to the next multiple of the alignment and nothing on an aligned position; on success the position is aligned; on failure the buffer is unchanged |
| Serialization.ResolveOwnedStr | rkyv/src/lib.rs:204-216 | `OwnedStr::resolve` builds a well-formed string pointer |
| Serialization.ResolvedStrLeadsToBytes | rkyv/src/lib.rs:204-216 | resolving from `pos + offset_of!(ptr)`, the pointer placed at that field leads to the recorded bytes with the string's own length |
| Serialization.SerializeOwnedStr | rkyv/src/lib.rs:222-229 | `OwnedStr::serialize` records the position before writing, then appends exactly the string's bytes; the resolver names that position; it fails, writing nothing, exactly when the bytes exceed the capacity |
| Serialization.ResolveAlignedOwnedStr | rkyv/src/lib.rs:204-216 | `resolve_aligned` writes the archived string at the current aligned position: the pointer from its own address to the recorded bytes |
| Serialization.ReadStr | rkyv/src/lib.rs:180-185 | a string read through an archived string's relative pointer has exactly the stored length |
| Serialization.AsStr | rkyv/src/lib.rs:180-185 | `as_str` on `archived_value(bytes, pos)` reads the string through the `ptr` field at `pos + offset_of!(ptr)` |
| Serialization.ArchiveOwnedStr | rkyv/src/lib.rs:204-241 | `archive` appends the bytes, the padding and the archived string in that order and returns the archived string's position; `as_str` there gives back the original string |
| Serialization.ReadOwnedStrBack | rkyv/src/lib.rs:204-241 | in any buffer laid out as bytes, padding and then the footprint, `as_str` at the footprint gives back the string's bytes |
| Serialization.ReadResolvedStr | rkyv/src/lib.rs:204-216 | reading a string whose footprint was resolved to bytes `s` that lie in the buffer gives `s` |
| Serialization.ReadStrAt | rkyv/src/lib.rs:239-241 | a buffer that holds the string's bytes at `start` and its footprint at `pos` reads back the string at `pos` |
| Serialization.ArchiveOwnedStrExample | rkyv/src/lib.rs:232-241 | archiving `"I'm in an OwnedStr!"` and viewing it with `archived_value` and `as_str` gives the same string |
| Serialization.SerializeI32 | rkyv/src/lib.rs:379 | `i32::serialize` writes nothing and cannot fail; its resolver carries nothing |
| Serialization.EncodeI32sPrefix | rkyv/src/lib.rs:387-391 | the tail's encoding grows by one element's image per element, in order |
| Serialization.ReadEncodedI32s | rkyv/src/lib.rs:387-391 | reading the written tail's bytes as `i32`s gives the tail back |
| Serialization.ResolveAlignedI32 | rkyv/src/lib.rs:389 | resolving an `i32` appends its four-byte image at the current position, or fails, writing nothing |
| Serialization.ResolveAlignedI32s | rkyv/src/lib.rs:387-391 | the loop over the tail zipped with its drained resolvers appends every element's image in order, and it succeeds exactly when they all fit |
| Serialization.WriteBlock | rkyv/src/lib.rs:384-392 | after the dependencies: the alignment padding, the head's archived string at the returned position, then the tail; the position is the aligned one; it succeeds exactly when all of it fits |
| Serialization.SerializeBlockUnsized | rkyv/src/lib.rs:372-393 | every dependency (the head's bytes; an `i32` has none) is written before any footprint; the buffer grows by exactly the block's bytes and the result is the aligned head footprint's position |
| Serialization.ArchiveRefBlock | rkyv/src/lib.rs:405-407 | `archive_ref` appends the block, padding and a slice pointer from its own position to the block, and returns that pointer's position |
| Serialization.ArchivedRefBytes | rkyv/src/lib.rs:405-407 | the block, the padding up to the pointer's aligned position and the pointer to the block's position are together exactly what `archive_ref` appends |
| Serialization.WriteSliceRef | rkyv/src/lib.rs:405-407 | the pointer `archive_ref` adds is `resolve_unsized` from its aligned position to the block |
| Serialization.BlockBytesLaidOut | rkyv/src/lib.rs:372-393 | the block's bytes hold the head's bytes, its archived string at the block's position and the tail right after it |
| Serialization.RefBytesLaidOut | rkyv/src/lib.rs:405-407 | what `archive_ref` appends holds the laid-out block followed by the relative pointer to it |
| Serialization.RefAfterBlock | rkyv/src/lib.rs:405-407 | the relative pointer written after a laid-out block and its padding lies at its own position, completing the layout `archive_ref` promises |
| Serialization.FollowWrittenSliceRef | rkyv/src/lib.rs:410 | `archived_unsized_value` on a written slice pointer reaches its target with the slice's length |
| Serialization.ArchivedRefDesignatesBlock | rkyv/src/lib.rs:410-412 | `archived_unsized_value` at the returned position reaches the block's position, carrying the tail's length |
| Serialization.ArchivedRefReadsBack | rkyv/src/lib.rs:410-413 | the block read through that view has the original head and the original tail |
| Serialization.ReadLaidOutBlock | rkyv/src/lib.rs:410-413 | a laid-out block reads back as the block itself |
| Serialization.ReadBlock | rkyv/src/lib.rs:410-413 | a block read through a pointer to a slice block has as many tail elements as the pointer's metadata says, and its head is the string read at the block's start |
| Serialization.ArchiveBlockExample | rkyv/src/lib.rs:396-413 | archiving `Block { head: "Numbers 1-4", tail: [1, 2, 3, 4] }` and following the returned pointer gives that head, a tail of length 4 and the tail `[1, 2, 3, 4]` |
| Validation.Fmt | rkyv/src/std_impl/validation.rs:22-30 | `Display` prints the wrapped error of whichever variant it is, through that error's own `Display` |
| Validation.Source | rkyv/src/std_impl/validation.rs:32-40 | `source` names a wrapped error for every variant |
| Validation.FmtIsSourceFmt | rkyv/src/std_impl/validation.rs:22-40 | for every variant, `Display` prints the same wrapped error that `source` names |
| Validation.CheckRelPtrSpec | rkyv/src/std_impl/validation.rs:51-52 | `check_rel_ptr(base, offset)` accepts exactly the targets in the buffer (its end included) and returns `base + offset`; otherwise it reports out of bounds |
| Validation.FirstOverlap | rkyv/src/std_impl/validation.rs:56-57 | the overlap scan finds an earlier claim that really overlaps, and finds none exactly when every earlier claim is disjoint |
| Validation.ClaimSpecCharacterized | rkyv/src/std_impl/validation.rs:56-57 | `claim_bytes` succeeds exactly when the range is in the buffer and disjoint from every earlier claim; it then appends exactly that range; an overlap error names an earlier claim that overlaps |
| Validation.ClaimPreservesValid | rkyv/src/std_impl/validation.rs:56-57 | a successful claim keeps the claims in the buffer and pairwise disjoint |
| Validation.ManualCheckBytes | rkyv/src/std_impl/validation.rs:49-50 | the footprint check reads the stored relative pointer and passes exactly when the augment's own check passes |
| Validation.CheckOwnedSpec | rkyv/src/std_impl/validation.rs:42-109 | the shared protocol returns the pointer-holding value itself on success, stops at a footprint failure with nothing claimed and no call made, and makes at most four calls |
| Validation.ErrorClassification | rkyv/src/std_impl/validation.rs:42-109 | a footprint failure gives `PointerCheckBytesError`; a rejected target or claim gives `ContextError`; a layout or content failure gives `ValueCheckBytesError`; success returns the pointer-holding value itself; before the content check nothing is claimed; the number of calls made matches the failing stage |
| Validation.FootprintFailureStopsEarly | rkyv/src/std_impl/validation.rs:49-50 | a footprint failure consults neither the context nor the pointee and claims nothing |
| Validation.CallSequence | rkyv/src/std_impl/validation.rs:49-60 | the calls in order are: the bounds check of `base + offset`; the layout of the target with the stored augment; the claim of exactly `[ptr, ptr + size)`; and only after a successful claim, the content check, which sees the new claim |
| Validation.CheckOwnedPreservesValid | rkyv/src/std_impl/validation.rs:42-109 | a whole owned-pointer check keeps the claims in the buffer and pairwise disjoint, given content checks that do so |
| Validation.SliceAugmentCheck | rkyv/src/std_impl/validation.rs:46 | every stored slice length is a valid augment |
| Validation.StrLayout | rkyv/src/std_impl/validation.rs:54 | `str`'s layout never fails and is one byte per stored length unit |
| Validation.SliceLayout | rkyv/src/std_impl/validation.rs:101-102 | `[T]`'s layout is the length times the element size and fails exactly when that exceeds `isize::MAX` |
| Validation.StrContents | rkyv/src/std_impl/validation.rs:58-59 | `str`'s content check claims nothing |
| Validation.CheckStringSpec | rkyv/src/std_impl/validation.rs:42-61 | `ArchivedString::check_bytes` returns the value itself on success and claims at most one range, the string's bytes |
| Validation.CheckBoxSpec | rkyv/src/std_impl/validation.rs:64-85 | `ArchivedBox<T>::check_bytes` returns the value itself on success and reports `PointerCheckBytesError` exactly when `T`'s own check of the stored augment fails |
| Validation.CheckElements | rkyv/src/std_impl/validation.rs:105-106 | a failing element check reports the index of an element within the slice |
| Validation.CheckVecSpec | rkyv/src/std_impl/validation.rs:87-109 | `ArchivedVec<T>::check_bytes` returns the value itself on success and never reports `PointerCheckBytesError` |
| Validation.StringHasNoPointerError | rkyv/src/std_impl/validation.rs:46-50 | a string's footprint check cannot fail, so a string check never reports `PointerCheckBytesError` |
| Validation.StringOutOfBounds | rkyv/src/std_impl/validation.rs:51-52 | a stored offset that leads outside the buffer gives the out-of-bounds `ContextError`, and nothing is claimed |
| Validation.StringValidates | rkyv/src/std_impl/validation.rs:42-61 | a string whose pointer leads to unclaimed, in-buffer, well-formed UTF-8 bytes validates, returning the value itself and claiming exactly those bytes |
| Validation.WrittenStringRelPtr | rkyv/src/std_impl/validation.rs:49-53 | validation reads a string pointer whose fields were written by `new(pos, to, StrLen(n))`, whatever its padding, as leading to `to` with length `n` |
| Validation.StringWrittenValidates | rkyv/src/std_impl/validation.rs:42-61 | a string whose fields were written by `new(pos, to, StrLen(n))`, whatever its padding, over `n` unclaimed well-formed bytes validates, claiming exactly the range of those bytes |
| Validation.StringRevalidationOverlaps | rkyv/src/std_impl/validation.rs:56-57 | after a non-empty string has validated, checking it again against the resulting claims fails with an overlap `ContextError` |
| Validation.VecClaimsLengthTimesSize | rkyv/src/std_impl/validation.rs:100-104 | a vector that validates claimed, at its target, its stored length times the element size |
| Validation.CheckElementsPreservesValid | rkyv/src/std_impl/validation.rs:105-106 | element checks that keep the claims valid keep them valid over the whole slice |
| Validation.SliceContentsKeepValid | rkyv/src/std_impl/validation.rs:105-106 | `[T]`'s content check keeps the claims valid whenever each element check does |
| Validation.ValidationContext.constructor | rkyv/src/std_impl/validation.rs:48 | a new context has claimed nothing |
| Validation.ValidationContext.CheckRelPtr | rkyv/src/std_impl/validation.rs:51-52 | the method computes exactly `check_rel_ptr`'s result and changes nothing |
| Validation.ValidationContext.ClaimBytes | rkyv/src/std_impl/validation.rs:56-57 | the method's scan and append give exactly `claim_bytes`'s result and new claims; a failure leaves the claims unchanged; it keeps the claims valid |
| Validation.ValidationContext.CheckOwnedPointer | rkyv/src/std_impl/validation.rs:48-61 | the shared method body gives exactly the protocol's outcome and new claims |
| Validation.ValidationContext.CheckString | rkyv/src/std_impl/validation.rs:42-61 | `ArchivedString::check_bytes` gives exactly the string protocol's outcome and claims, and keeps the claims valid |
| Validation.ValidationContext.CheckBox | rkyv/src/std_impl/validation.rs:64-85 | `ArchivedBox<T>::check_bytes` gives exactly the protocol's outcome and claims for `T`, and keeps them valid when `T`'s content check does |
| Validation.ValidationContext.CheckVec | rkyv/src/std_impl/validation.rs:87-109 | `ArchivedVec<T>::check_bytes` gives exactly the protocol's outcome and claims for `[T]`, and keeps the claims valid when every element check does |

## Left out

- Overflow panics: `to as isize - from as isize` can overflow `isize` for
  addresses at or above 2^63. It is modelled as its release-build wrap-around.
  A debug build would panic instead.
- `isize` is taken to be 64 bits wide. Offsets are `i32`, or `i64` under
  `long_rel_ptrs`, chosen by the `Width` parameter.
- Raw pointers, `transmute` of wide pointers, `offset_of!` and
  `PhantomPinned` become integer addresses with metadata. `offset_of!(ptr)`
  in `ArchivedOwnedStr` is the constant 0, because the struct has one field.
- The `Pin` of `archived_value_mut` and `archived_unsized_value_mut` is not
  modelled. The model states only that these agree with the shared versions.
- The `Aligned<T>` wrapper, `fmt::Debug` for `RelPtr`, `ArchiveCopy`, the
  `Vector4<f32>` example (floating point), derive macros and deserialization
  are not part of this model.
- `WriteSerializer` writes to a `Vec`, and the `Serializer` class stands in
  for it. The class has a capacity bound so that every `?` in the examples
  has a failure path. A real writer's I/O errors are not modelled.
- Archived values are little-endian, the native order of the usual targets.
  A relative pointer is laid out as `#[repr(C)]`: the offset, then the
  augment, then padding to the offset's alignment. The source requests that
  layout only under the `strict` feature (rkyv/src/lib.rs:505); without it
  the compiler may order the fields differently, which is not modelled.
- The model's serializer writes zero bytes into a relative pointer's
  padding, where `resolve_aligned` copies the struct's bytes and leaves the
  padding unspecified. Reading looks only at the field bytes
  (`DecodeIgnoresPadding`, `ReadRelPtrFields`), and the follow and validation
  lemmas (`ArchivedUnsizedValueOfNew`, `WrittenStringRelPtr`,
  `StringWrittenValidates`) accept any padding. The serializer's read-back
  lemmas (`ReadWrittenRelPtr`, `ReadResolvedStr`, `ReadStrAt`,
  `BlockBytesLaidOut`, `RefBytesLaidOut`) are stated on the zero-padded
  image that the model writes.
- ReadStr, AsStr: a target outside the buffer gives `None`, where the source
  has undefined behaviour. `as_str` also assumes well-formed UTF-8, which the
  model does not check.
- Alignment is modelled as positions that are multiples of the alignment.
  Serializer positions are addresses, because the buffer starts at address 0.
  The validation model checks no alignment.
- The `validation` module is not part of this model, so `check_rel_ptr` and
  `claim_bytes` are specified abstractly. `check_rel_ptr` accepts any target
  in `[begin, begin + len]`. `claim_bytes` requires the range to lie in the
  buffer and to share no byte with an earlier claim, and then records it.
- `bytecheck`'s `CheckBytes` and `CheckLayout` for `str` and `[T]` are
  collaborators described here by what they return. UTF-8 well-formedness
  is a predicate parameter, and `T`'s own layout and content checks are
  function parameters. An ideal `str` or `[T]` check's failures are not
  refined further.
- The caller of `check_bytes` guarantees that the pointer-holding value's
  own bytes lie in the buffer. That guarantee is the methods' `requires`
  `FootprintInBuffer`.
- `PointerCheckBytesError` cannot occur for `String` and `Vec`, because
  `SliceAugment`'s own check accepts every length. The model carries it
  generically through `Box`.
- The `Block` example archives a `String` head, and the model archives that
  head with `OwnedStr`'s layout. So `String`'s own `Archive` implementation
  outside the shown file is not modelled separately.
- ArchiveOwnedStr: the read-back ensures holds only for strings shorter
  than 2^32 bytes, because `make_augment` stores the length `as u32`.
- ArchivedRefReadsBack: it requires head and tail lengths below 2^32 for the
  same `as u32` truncation of the augment.
- ArchivedRefDesignatesBlock: it requires a tail length below 2^32, for the
  same reason.
- ArchiveOwnedStr, SerializeBlockUnsized, ArchiveRefBlock: they require the
  capacity to stay below `Offset::MAX`, so every distance in the buffer fits
  in an offset. Past it, only `RelPtrs.New`'s truncation statement applies.

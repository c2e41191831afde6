/**
 * Validation of the owned-pointer archived forms (`ArchivedString`,
 * `ArchivedBox<T>`, `ArchivedVec<T>`) against an untrusted buffer.
 *
 * A validation context knows the buffer and records the byte ranges that
 * earlier checks have claimed. Each owned pointer is checked by the same
 * sequence: check the relative pointer's own bytes, bounds-check its target
 * (`check_rel_ptr`), build the typed pointer from the target and the augment and
 * compute the pointee's layout, claim exactly that many bytes (`claim_bytes`,
 * which refuses overlaps), then check the pointee's contents. Every failure is
 * wrapped in the `OwnedPointerError` variant of the layer that failed.
 *
 * The pointee's layout and content checks belong to other types; they are
 * passed in as functions. A content check may claim further ranges, so it maps
 * the claimed ranges before it to the claimed ranges after it.
 */
module Validation {
  import opened Ints
  import opened Wrappers
  import opened RelPtrs

  // ---------------------------------------------------------------------------
  // The error type

  datatype OwnedPointerError<T, R, C> =
    | PointerCheckBytesError(pointer: T)
    | ValueCheckBytesError(value: R)
    | ContextError(context: C)

  /** `Display::fmt`: every variant prints its wrapped error. */
  function Fmt<T, R, C>(e: OwnedPointerError<T, R, C>, fmtT: T -> string, fmtR: R -> string, fmtC: C -> string): (r: string)
    ensures e.PointerCheckBytesError? ==> r == fmtT(e.pointer)
    ensures e.ValueCheckBytesError? ==> r == fmtR(e.value)
    ensures e.ContextError? ==> r == fmtC(e.context)
  {
    match e
    case PointerCheckBytesError(x) => fmtT(x)
    case ValueCheckBytesError(x) => fmtR(x)
    case ContextError(x) => fmtC(x)
  }

  /** `Error::source`: every variant names its wrapped error (seen as `dyn Error`, here `D`). */
  function Source<T, R, C, D>(e: OwnedPointerError<T, R, C>, asT: T -> D, asR: R -> D, asC: C -> D): (r: Option<D>)
    ensures r.Some?
  {
    match e
    case PointerCheckBytesError(x) => Some(asT(x))
    case ValueCheckBytesError(x) => Some(asR(x))
    case ContextError(x) => Some(asC(x))
  }

  /**
   * Display and source delegate to the same wrapped error: printing the error
   * prints its source, whichever variant it is.
   */
  lemma {:induction false} FmtIsSourceFmt<T, R, C, D>(e: OwnedPointerError<T, R, C>, asT: T -> D, asR: R -> D, asC: C -> D, show: D -> string)
    ensures Fmt(e, x => show(asT(x)), x => show(asR(x)), x => show(asC(x))) == show(Source(e, asT, asR, asC).value)
  {
  }

  // ---------------------------------------------------------------------------
  // The validation context

  /** A half-open range of addresses `[start, end)`. */
  datatype Range = Range(start: int, end: int)

  /** Two ranges share at least one byte. */
  predicate Overlaps(a: Range, b: Range) {
    a.start < b.end && b.start < a.end && a.start < a.end && b.start < b.end
  }

  datatype ContextError =
    | OutOfBounds(basePos: int, offset: int, archiveLen: nat)
    | ClaimOutOfBounds(start: int, size: nat, archiveLen: nat)
    | Overlap(previous: Range, current: Range)

  /** The fixed part of a validation context: offset width, buffer start address, buffer bytes. */
  datatype Buffer = Buffer(width: Width, begin: int, bytes: seq<byte>)

  /**
   * `check_rel_ptr(base, offset)`: the target `base + offset` must lie in the
   * buffer (its end counts, for empty targets); it is returned.
   */
  function CheckRelPtrSpec(buf: Buffer, base: int, offset: int): (r: Result<int, ContextError>)
    ensures r.Ok? <==> buf.begin <= base + offset <= buf.begin + |buf.bytes|
    ensures r.Ok? ==> r.value == base + offset
    ensures r.Err? ==> r.error == OutOfBounds(base - buf.begin, offset, |buf.bytes|)
  {
    var pos := base - buf.begin + offset;
    if 0 <= pos <= |buf.bytes| then Ok(base + offset)
    else Err(OutOfBounds(base - buf.begin, offset, |buf.bytes|))
  }

  /** The first claimed range that overlaps `r`, in claiming order. */
  function FirstOverlap(claimed: seq<Range>, r: Range): (o: Option<Range>)
    ensures o.Some? ==> o.value in claimed && Overlaps(o.value, r)
    ensures o.None? <==> forall i :: 0 <= i < |claimed| ==> !Overlaps(claimed[i], r)
  {
    if claimed == [] then None
    else if Overlaps(claimed[0], r) then Some(claimed[0])
    else FirstOverlap(claimed[1..], r)
  }

  /** The range `[start, start + size)` lies inside the buffer. */
  predicate InBuffer(buf: Buffer, start: int, size: nat) {
    buf.begin <= start && start + size <= buf.begin + |buf.bytes|
  }

  /**
   * `claim_bytes(start, size)`: the range must lie in the buffer and share no
   * byte with an earlier claim; it is then appended to the claims.
   */
  function ClaimSpec(buf: Buffer, claimed: seq<Range>, start: int, size: nat): Result<seq<Range>, ContextError> {
    var r := Range(start, start + size);
    if !InBuffer(buf, start, size) then Err(ClaimOutOfBounds(start - buf.begin, size, |buf.bytes|))
    else match FirstOverlap(claimed, r)
      case Some(previous) => Err(Overlap(previous, r))
      case None => Ok(claimed + [r])
  }

  /** Every claim lies in the buffer and no two claims overlap. */
  ghost predicate ClaimsValid(buf: Buffer, claimed: seq<Range>) {
    && (forall i :: 0 <= i < |claimed| ==> buf.begin <= claimed[i].start <= claimed[i].end <= buf.begin + |buf.bytes|)
    && (forall i, j :: 0 <= i < j < |claimed| ==> !Overlaps(claimed[i], claimed[j]))
  }

  /**
   * A claim succeeds exactly when its range is in the buffer and disjoint from
   * every earlier claim, and then it appends exactly that range; an overlap
   * error names an earlier claim that really overlaps.
   */
  lemma {:induction false} ClaimSpecCharacterized(buf: Buffer, claimed: seq<Range>, start: int, size: nat)
    ensures ClaimSpec(buf, claimed, start, size).Ok? <==>
      InBuffer(buf, start, size) && forall i :: 0 <= i < |claimed| ==> !Overlaps(claimed[i], Range(start, start + size))
    ensures ClaimSpec(buf, claimed, start, size).Ok? ==>
      ClaimSpec(buf, claimed, start, size).value == claimed + [Range(start, start + size)]
    ensures ClaimSpec(buf, claimed, start, size).Err? && ClaimSpec(buf, claimed, start, size).error.Overlap? ==>
      ClaimSpec(buf, claimed, start, size).error.previous in claimed &&
      ClaimSpec(buf, claimed, start, size).error.current == Range(start, start + size) &&
      Overlaps(ClaimSpec(buf, claimed, start, size).error.previous, Range(start, start + size))
  {
  }

  /** Claiming keeps the claims in the buffer and pairwise disjoint. */
  lemma {:induction false} ClaimPreservesValid(buf: Buffer, claimed: seq<Range>, start: int, size: nat)
    requires ClaimsValid(buf, claimed)
    requires ClaimSpec(buf, claimed, start, size).Ok?
    ensures ClaimsValid(buf, ClaimSpec(buf, claimed, start, size).value)
  {
    var r := Range(start, start + size);
    var c := claimed + [r];
    forall i, j | 0 <= i < j < |c| ensures !Overlaps(c[i], c[j]) {
      if j == |claimed| {
        assert !Overlaps(claimed[i], r);
      }
    }
  }

  // ---------------------------------------------------------------------------
  // The owned-pointer protocol

  /** The outcome of a nested check, and the claims after it (kept on failure too). */
  datatype Checked<E> = Checked(result: Outcome<E>, claimed: seq<Range>)

  /**
   * What a pointee type `T` contributes to its owner's check: `T::layout(ptr)`,
   * the number of bytes it occupies, and `T::check_bytes(ptr)`, its content check.
   */
  datatype PointeeCheck<E> = PointeeCheck(
    layout: TypedPtr -> Result<nat, E>,
    contents: (TypedPtr, seq<Range>) -> Checked<E>)

  /** A call the protocol makes on the context or on the pointee, in order. */
  datatype Step =
    | RelPtrChecked(base: int, offset: int)
    | LayoutComputed(ptr: TypedPtr)
    | BytesClaimed(start: int, size: nat)
    | ContentsChecked(ptr: TypedPtr)

  datatype Validated<PE, VE> = Validated(
    result: Result<int, OwnedPointerError<PE, VE, ContextError>>,
    claimed: seq<Range>,
    trace: seq<Step>)

  /** The relative pointer's footprint at `value` lies in the buffer (the caller's side of `check_bytes`). */
  predicate FootprintInBuffer(buf: Buffer, value: int, k: AugmentKind) {
    InBuffer(buf, value, FootprintSize(buf.width, k))
  }

  /**
   * `RelPtr::manual_check_bytes`: reads the offset (every bit pattern is an
   * `Offset`) and the augment, and applies the augment's own check.
   */
  function ManualCheckBytes<PE>(buf: Buffer, value: int, k: AugmentKind, augmentCheck: Augment -> Outcome<PE>): (r: Result<RelPtr, PE>)
    requires FootprintInBuffer(buf, value, k)
    ensures r.Ok? <==> augmentCheck(ReadRelPtr(buf.width, buf.bytes, value - buf.begin, k).augment).Pass?
    ensures r.Ok? ==> r.value == ReadRelPtr(buf.width, buf.bytes, value - buf.begin, k)
  {
    var rp := ReadRelPtr(buf.width, buf.bytes, value - buf.begin, k);
    match augmentCheck(rp.augment)
    case Fail(e) => Err(e)
    case Pass => Ok(rp)
  }

  /**
   * The shared body of the three `check_bytes` implementations, given the
   * result of the footprint check: the outcome, the claims afterwards, and the
   * calls made.
   */
  function CheckOwnedSpec<PE, VE>(buf: Buffer, claimed: seq<Range>, value: int, footprint: Result<RelPtr, PE>, pointee: PointeeCheck<VE>): (r: Validated<PE, VE>)
    ensures r.result.Ok? ==> r.result.value == value
    ensures footprint.Err? ==> r.claimed == claimed && r.trace == []
    ensures |r.trace| <= 4
  {
    match footprint
    case Err(e) => Validated(Err(PointerCheckBytesError(e)), claimed, [])
    case Ok(rp) =>
      var t1 := [RelPtrChecked(Base(value, rp), OffsetOf(buf.width, rp))];
      match CheckRelPtrSpec(buf, Base(value, rp), OffsetOf(buf.width, rp))
      case Err(ce) => Validated(Err(ContextError(ce)), claimed, t1)
      case Ok(data) =>
        var ptr := AugmentPtr(data, AugmentOf(rp));
        var t2 := t1 + [LayoutComputed(ptr)];
        match pointee.layout(ptr)
        case Err(ve) => Validated(Err(ValueCheckBytesError(ve)), claimed, t2)
        case Ok(size) =>
          var t3 := t2 + [BytesClaimed(ptr.addr, size)];
          match ClaimSpec(buf, claimed, ptr.addr, size)
          case Err(ce) => Validated(Err(ContextError(ce)), claimed, t3)
          case Ok(claimed') =>
            var c := pointee.contents(ptr, claimed');
            var t4 := t3 + [ContentsChecked(ptr)];
            match c.result
            case Fail(ve) => Validated(Err(ValueCheckBytesError(ve)), c.claimed, t4)
            case Pass => Validated(Ok(value), c.claimed, t4)
  }

  // ---------------------------------------------------------------------------
  // Properties of the protocol

  /** The step at which a check stops, or `AllPassed`. */
  datatype Stage = FootprintStage | RelPtrStage | LayoutStage | ClaimStage | ContentsStage | AllPassed

  /**
   * Which step stops the validation, judged directly from the buffer bounds, the
   * earlier claims and the answers of the pointee's collaborators.
   */
  function FailingStage<PE, VE>(buf: Buffer, claimed: seq<Range>, value: int, footprint: Result<RelPtr, PE>, pointee: PointeeCheck<VE>): Stage {
    if footprint.Err? then FootprintStage
    else
      var rp := footprint.value;
      var target := value + OffsetOf(buf.width, rp);
      if !(buf.begin <= target <= buf.begin + |buf.bytes|) then RelPtrStage
      else
        var ptr := AugmentPtr(target, rp.augment);
        if pointee.layout(ptr).Err? then LayoutStage
        else
          var r := Range(target, target + pointee.layout(ptr).value);
          if !InBuffer(buf, target, pointee.layout(ptr).value) || exists i :: 0 <= i < |claimed| && Overlaps(claimed[i], r) then ClaimStage
          else if pointee.contents(ptr, claimed + [r]).result.Fail? then ContentsStage
          else AllPassed
  }

  /** How many context and pointee calls a check that stops at `s` makes. */
  function CallsMade(s: Stage): nat {
    match s
    case FootprintStage => 0
    case RelPtrStage => 1
    case LayoutStage => 2
    case ClaimStage => 3
    case ContentsStage => 4
    case AllPassed => 4
  }

  /**
   * Error classification: a footprint failure is a pointer error, a rejected
   * target or a rejected claim is a context error, a layout or content failure
   * is a value error, and a check that passes returns the pointer-holding value
   * itself, not its target. Until the contents are checked nothing is claimed.
   */
  lemma {:induction false} ErrorClassification<PE, VE>(buf: Buffer, claimed: seq<Range>, value: int, footprint: Result<RelPtr, PE>, pointee: PointeeCheck<VE>)
    ensures var v := CheckOwnedSpec(buf, claimed, value, footprint, pointee);
      var s := FailingStage(buf, claimed, value, footprint, pointee);
      && (v.result.Ok? <==> s == AllPassed)
      && (v.result.Ok? ==> v.result.value == value)
      && (v.result.Err? && v.result.error.PointerCheckBytesError? <==> s == FootprintStage)
      && (v.result.Err? && v.result.error.ContextError? <==> s == RelPtrStage || s == ClaimStage)
      && (v.result.Err? && v.result.error.ValueCheckBytesError? <==> s == LayoutStage || s == ContentsStage)
      && (s != ContentsStage && s != AllPassed ==> v.claimed == claimed)
      && |v.trace| == CallsMade(s)
  {
    if footprint.Ok? {
      var rp := footprint.value;
      var target := value + OffsetOf(buf.width, rp);
      var ptr := AugmentPtr(target, rp.augment);
      if buf.begin <= target <= buf.begin + |buf.bytes| && pointee.layout(ptr).Ok? {
        var size := pointee.layout(ptr).value;
        ClaimSpecCharacterized(buf, claimed, target, size);
      }
    }
  }

  /** A footprint failure consults neither the context nor the pointee. */
  lemma {:induction false} FootprintFailureStopsEarly<PE, VE>(buf: Buffer, claimed: seq<Range>, value: int, e: PE, pointee: PointeeCheck<VE>)
    ensures CheckOwnedSpec(buf, claimed, value, Err(e), pointee) == Validated(Err(PointerCheckBytesError(e)), claimed, [])
  {
  }

  /**
   * The calls a check makes, in order: the bounds check of `base + offset`, the
   * layout of the target combined with the stored augment, the claim of exactly
   * `[ptr, ptr + size)`, and only then the content check, which sees the claims
   * including the new one.
   */
  lemma {:induction false} CallSequence<PE, VE>(buf: Buffer, claimed: seq<Range>, value: int, rp: RelPtr, pointee: PointeeCheck<VE>)
    requires WellFormed(buf.width, rp)
    ensures var v := CheckOwnedSpec<PE, VE>(buf, claimed, value, Ok(rp), pointee);
      var ptr := AugmentPtr(value + rp.offset, rp.augment);
      && v.trace[0] == RelPtrChecked(value, rp.offset)
      && (|v.trace| == 1 <==> CheckRelPtrSpec(buf, value, rp.offset).Err?)
      && (|v.trace| >= 2 ==> v.trace[1] == LayoutComputed(ptr))
      && (|v.trace| >= 3 ==> pointee.layout(ptr).Ok? && v.trace[2] == BytesClaimed(ptr.addr, pointee.layout(ptr).value))
      && (|v.trace| == 4 ==>
            && ClaimSpec(buf, claimed, ptr.addr, pointee.layout(ptr).value).Ok?
            && v.trace[3] == ContentsChecked(ptr)
            && v.claimed == pointee.contents(ptr, claimed + [Range(ptr.addr, ptr.addr + pointee.layout(ptr).value)]).claimed)
  {
    var v := CheckOwnedSpec<PE, VE>(buf, claimed, value, Ok(rp), pointee);
    var ptr := AugmentPtr(value + rp.offset, rp.augment);
    if CheckRelPtrSpec(buf, value, rp.offset).Ok? && pointee.layout(ptr).Ok? {
      ClaimSpecCharacterized(buf, claimed, ptr.addr, pointee.layout(ptr).value);
    }
  }

  /** The content check keeps the claims valid. */
  ghost predicate ContentsKeepValid<E>(buf: Buffer, pointee: PointeeCheck<E>) {
    forall p, c :: ClaimsValid(buf, c) ==> ClaimsValid(buf, pointee.contents(p, c).claimed)
  }

  /** A whole owned-pointer check keeps the claims in the buffer and pairwise disjoint. */
  lemma {:induction false} CheckOwnedPreservesValid<PE, VE>(buf: Buffer, claimed: seq<Range>, value: int, footprint: Result<RelPtr, PE>, pointee: PointeeCheck<VE>)
    requires ClaimsValid(buf, claimed) && ContentsKeepValid(buf, pointee)
    ensures ClaimsValid(buf, CheckOwnedSpec(buf, claimed, value, footprint, pointee).claimed)
  {
    if footprint.Ok? {
      var rp := footprint.value;
      var data := CheckRelPtrSpec(buf, Base(value, rp), OffsetOf(buf.width, rp));
      if data.Ok? {
        var ptr := AugmentPtr(data.value, rp.augment);
        if pointee.layout(ptr).Ok? && ClaimSpec(buf, claimed, ptr.addr, pointee.layout(ptr).value).Ok? {
          ClaimPreservesValid(buf, claimed, ptr.addr, pointee.layout(ptr).value);
        }
      }
    }
  }

  // ---------------------------------------------------------------------------
  // The three owned-pointer forms

  /** The error of a check that cannot fail: no value of it is ever produced. */
  datatype Infallible = Infallible

  /** `SliceAugment`'s own check: every length is a valid `u32`. */
  function SliceAugmentCheck(a: Augment): (r: Outcome<Infallible>)
    ensures r.Pass?
  {
    Pass
  }

  /** The bytes of `[start, start + size)`, which lie in the buffer. */
  function Slice(buf: Buffer, start: int, size: nat): seq<byte>
    requires InBuffer(buf, start, size)
  {
    buf.bytes[start - buf.begin..start - buf.begin + size]
  }

  /** The bytes at buffer position `at` are the buffer's bytes from index `at`. */
  lemma {:induction false} SliceAt(buf: Buffer, at: nat, size: nat)
    requires at + size <= |buf.bytes|
    ensures Slice(buf, buf.begin + at, size) == buf.bytes[at..at + size]
  {
  }

  /** `str`'s content check fails on ill-formed UTF-8. */
  datatype StrError = InvalidUtf8(start: int)

  /** `str`'s layout: one byte per element. */
  function StrLayout(p: TypedPtr): (r: Result<nat, StrError>)
    ensures r.Ok? && r.value == LenOf(p)
  {
    Ok(LenOf(p))
  }

  /**
   * `str`'s content check: the bytes must be well-formed UTF-8 (`utf8`, a
   * predicate of the checking library); it claims nothing.
   */
  function StrContents(buf: Buffer, utf8: seq<byte> -> bool, p: TypedPtr, claimed: seq<Range>): (c: Checked<StrError>)
    ensures c.claimed == claimed
  {
    if InBuffer(buf, p.addr, LenOf(p)) && utf8(Slice(buf, p.addr, LenOf(p))) then Checked(Pass, claimed)
    else Checked(Fail(InvalidUtf8(p.addr)), claimed)
  }

  function StrPointee(buf: Buffer, utf8: seq<byte> -> bool): PointeeCheck<StrError> {
    PointeeCheck(StrLayout, (p: TypedPtr, c: seq<Range>) => StrContents(buf, utf8, p, c))
  }

  /** `ArchivedString::check_bytes`: a relative pointer to a `str`. */
  function CheckStringSpec(buf: Buffer, claimed: seq<Range>, value: int, utf8: seq<byte> -> bool): (r: Validated<Infallible, StrError>)
    requires FootprintInBuffer(buf, value, StrKind)
    ensures r.result.Ok? ==> r.result.value == value
    ensures |r.claimed| <= |claimed| + 1
  {
    CheckOwnedSpec(buf, claimed, value, ManualCheckBytes(buf, value, StrKind, SliceAugmentCheck), StrPointee(buf, utf8))
  }

  /** A slice's layout overflows, or one of its elements fails its check. */
  datatype SliceError<E> = LayoutOverflow(len: nat, elemSize: nat) | ElementError(index: nat, inner: E)

  /** `[T]`'s layout: `len` elements of `elemSize` bytes, refused beyond `isize::MAX`. */
  function SliceLayout<E>(elemSize: nat, p: TypedPtr): (r: Result<nat, SliceError<E>>)
    ensures r.Ok? <==> LenOf(p) * elemSize <= MaxValue(W64)
    ensures r.Ok? ==> r.value == LenOf(p) * elemSize
  {
    var size := LenOf(p) * elemSize;
    if size > MaxValue(W64) then Err(LayoutOverflow(LenOf(p), elemSize)) else Ok(size)
  }

  /**
   * `[T]`'s content check from element `i` on: each element, in order, through
   * `T::check_bytes`, stopping at the first failure and reporting its index.
   */
  function CheckElements<E>(elemSize: nat, elem: (int, seq<Range>) -> Checked<E>, addr: int, n: nat, i: nat, claimed: seq<Range>): (c: Checked<SliceError<E>>)
    requires i <= n
    ensures c.result.Fail? ==> c.result.error.ElementError? && i <= c.result.error.index < n
    decreases n - i
  {
    if i == n then Checked(Pass, claimed)
    else
      var c := elem(addr + i * elemSize, claimed);
      match c.result
      case Fail(e) => Checked(Fail(ElementError(i, e)), c.claimed)
      case Pass => CheckElements(elemSize, elem, addr, n, i + 1, c.claimed)
  }

  function SlicePointee<E>(elemSize: nat, elem: (int, seq<Range>) -> Checked<E>): PointeeCheck<SliceError<E>> {
    PointeeCheck((p: TypedPtr) => SliceLayout(elemSize, p), (p: TypedPtr, c: seq<Range>) => CheckElements(elemSize, elem, p.addr, LenOf(p), 0, c))
  }

  /** `ArchivedVec<T>::check_bytes`: a relative pointer to a `[T]`. */
  function CheckVecSpec<E>(buf: Buffer, claimed: seq<Range>, value: int, elemSize: nat, elem: (int, seq<Range>) -> Checked<E>): (r: Validated<Infallible, SliceError<E>>)
    requires FootprintInBuffer(buf, value, SliceKind)
    ensures r.result.Ok? ==> r.result.value == value
    ensures r.result.Err? ==> !r.result.error.PointerCheckBytesError?
  {
    CheckOwnedSpec(buf, claimed, value, ManualCheckBytes(buf, value, SliceKind, SliceAugmentCheck), SlicePointee(elemSize, elem))
  }

  /**
   * `ArchivedBox<T>::check_bytes`: a relative pointer to a `T` whose augment
   * kind, augment check, layout and content check are `T`'s own.
   */
  function CheckBoxSpec<PE, VE>(buf: Buffer, claimed: seq<Range>, value: int, k: AugmentKind, augmentCheck: Augment -> Outcome<PE>, pointee: PointeeCheck<VE>): (r: Validated<PE, VE>)
    requires FootprintInBuffer(buf, value, k)
    ensures r.result.Ok? ==> r.result.value == value
    ensures r.result.Err? && r.result.error.PointerCheckBytesError?
        <==> augmentCheck(ReadRelPtr(buf.width, buf.bytes, value - buf.begin, k).augment).Fail?
  {
    CheckOwnedSpec(buf, claimed, value, ManualCheckBytes(buf, value, k, augmentCheck), pointee)
  }

  // ---------------------------------------------------------------------------
  // Consequences for archived strings

  /** The footprint check of a string cannot fail, so neither can it be reported. */
  lemma {:induction false} StringHasNoPointerError(buf: Buffer, claimed: seq<Range>, value: int, utf8: seq<byte> -> bool)
    requires FootprintInBuffer(buf, value, StrKind)
    ensures var v := CheckStringSpec(buf, claimed, value, utf8);
      v.result.Err? ==> !v.result.error.PointerCheckBytesError?
  {
  }

  /** The relative pointer of the string at `value`, as stored. */
  function StringRelPtr(buf: Buffer, value: int): RelPtr
    requires FootprintInBuffer(buf, value, StrKind)
  {
    ReadRelPtr(buf.width, buf.bytes, value - buf.begin, StrKind)
  }

  /** The string at buffer position `at` stores the relative pointer read from index `at`. */
  lemma {:induction false} StringRelPtrAt(buf: Buffer, at: nat)
    requires at + FootprintSize(buf.width, StrKind) <= |buf.bytes|
    ensures StringRelPtr(buf, buf.begin + at) == ReadRelPtr(buf.width, buf.bytes, at, StrKind)
  {
  }

  /**
   * A stored offset that leads outside the buffer is reported as out of
   * bounds, and nothing is claimed.
   */
  lemma {:induction false} StringOutOfBounds(buf: Buffer, claimed: seq<Range>, value: int, utf8: seq<byte> -> bool)
    requires FootprintInBuffer(buf, value, StrKind)
    requires var t := value + StringRelPtr(buf, value).offset;
      t < buf.begin || t > buf.begin + |buf.bytes|
    ensures var v := CheckStringSpec(buf, claimed, value, utf8);
      && v.result == Err(ContextError(OutOfBounds(value - buf.begin, StringRelPtr(buf, value).offset, |buf.bytes|)))
      && v.claimed == claimed
  {
  }

  /**
   * A string whose stored pointer leads to bytes inside the buffer that are
   * well-formed UTF-8 and not claimed yet validates, and exactly the range of
   * those bytes is claimed.
   */
  lemma {:induction false} StringValidates(buf: Buffer, claimed: seq<Range>, value: int, t: int, n: u32, utf8: seq<byte> -> bool)
    requires FootprintInBuffer(buf, value, StrKind)
    requires value + StringRelPtr(buf, value).offset == t && StringRelPtr(buf, value).augment == StrLen(n)
    requires InBuffer(buf, t, n) && utf8(Slice(buf, t, n))
    requires forall i :: 0 <= i < |claimed| ==> !Overlaps(claimed[i], Range(t, t + n))
    ensures var v := CheckStringSpec(buf, claimed, value, utf8);
      v.result == Ok(value) && v.claimed == claimed + [Range(t, t + n)]
  {
    ClaimSpecCharacterized(buf, claimed, t, n);
  }

  /** A string's relative pointer written by `new(pos, to, StrLen(n))` leads to `to` with length `n`. */
  lemma {:induction false} WrittenStringRelPtr(buf: Buffer, pos: usize, to: usize, n: u32)
    requires pos + FootprintSize(buf.width, StrKind) <= |buf.bytes|
    requires Fits(buf.width, to - pos)
    requires buf.bytes[pos..pos + FieldsSize(buf.width, StrKind)] == EncodeRelPtr(buf.width, New(buf.width, pos, to, StrLen(n)))[..FieldsSize(buf.width, StrKind)]
    ensures buf.begin + pos + StringRelPtr(buf, buf.begin + pos).offset == buf.begin + to
    ensures StringRelPtr(buf, buf.begin + pos).augment == StrLen(n)
  {
    var rp := New(buf.width, pos, to, StrLen(n));
    ReadRelPtrFields(buf.width, buf.bytes, pos, rp);
    StringRelPtrAt(buf, pos);
  }

  /**
   * Soundness on trusted output: a string whose relative pointer was built by
   * `new(pos, to, StrLen(n))` over `n` well-formed bytes at `to`, none of them
   * claimed yet, validates, and exactly the range of its bytes is claimed.
   */
  lemma {:induction false} StringWrittenValidates(buf: Buffer, claimed: seq<Range>, pos: usize, to: usize, n: u32, utf8: seq<byte> -> bool)
    requires FootprintInBuffer(buf, buf.begin + pos, StrKind)
    requires pos + FootprintSize(buf.width, StrKind) <= |buf.bytes| && to + n <= |buf.bytes|
    requires Fits(buf.width, to - pos)
    requires buf.bytes[pos..pos + FieldsSize(buf.width, StrKind)] == EncodeRelPtr(buf.width, New(buf.width, pos, to, StrLen(n)))[..FieldsSize(buf.width, StrKind)]
    requires utf8(buf.bytes[to..to + n])
    requires forall i :: 0 <= i < |claimed| ==> !Overlaps(claimed[i], Range(buf.begin + to, buf.begin + to + n))
    ensures var v := CheckStringSpec(buf, claimed, buf.begin + pos, utf8);
      && v.result == Ok(buf.begin + pos)
      && v.claimed == claimed + [Range(buf.begin + to, buf.begin + to + n)]
  {
    WrittenStringRelPtr(buf, pos, to, n);
    SliceAt(buf, to, n);
    StringValidates(buf, claimed, buf.begin + pos, buf.begin + to, n, utf8);
  }

  /**
   * No byte is validated twice: once a non-empty string has been validated,
   * validating it again against the claims that produced fails with an overlap.
   */
  lemma {:induction false} StringRevalidationOverlaps(buf: Buffer, claimed: seq<Range>, value: int, utf8: seq<byte> -> bool)
    requires FootprintInBuffer(buf, value, StrKind)
    requires CheckStringSpec(buf, claimed, value, utf8).result.Ok?
    requires StringRelPtr(buf, value).augment.len > 0
    ensures var again := CheckStringSpec(buf, CheckStringSpec(buf, claimed, value, utf8).claimed, value, utf8);
      again.result.Err? && again.result.error.ContextError? && again.result.error.context.Overlap?
  {
    var rp := StringRelPtr(buf, value);
    var ptr := AugmentPtr(value + rp.offset, rp.augment);
    var r := Range(ptr.addr, ptr.addr + rp.augment.len);
    var first := CheckStringSpec(buf, claimed, value, utf8);
    ClaimSpecCharacterized(buf, claimed, ptr.addr, rp.augment.len);
    assert first.claimed == claimed + [r];
    assert Overlaps(first.claimed[|claimed|], r);
    ClaimSpecCharacterized(buf, first.claimed, ptr.addr, rp.augment.len);
  }

  // ---------------------------------------------------------------------------
  // Consequences for archived vectors

  /** A vector's pointee occupies its stored length times the element size. */
  lemma {:induction false} VecClaimsLengthTimesSize<E>(buf: Buffer, claimed: seq<Range>, value: int, elemSize: nat, elem: (int, seq<Range>) -> Checked<E>)
    requires FootprintInBuffer(buf, value, SliceKind)
    ensures var v := CheckVecSpec(buf, claimed, value, elemSize, elem);
      var rp := ReadRelPtr(buf.width, buf.bytes, value - buf.begin, SliceKind);
      v.result.Ok? ==> |v.trace| == 4 && v.trace[2] == BytesClaimed(value + rp.offset, rp.augment.len * elemSize)
  {
  }

  /** Element checks that keep the claims valid keep them valid over the whole slice. */
  lemma {:induction false} CheckElementsPreservesValid<E>(buf: Buffer, elemSize: nat, elem: (int, seq<Range>) -> Checked<E>, addr: int, n: nat, i: nat, claimed: seq<Range>)
    requires i <= n
    requires ClaimsValid(buf, claimed)
    requires forall a, c :: ClaimsValid(buf, c) ==> ClaimsValid(buf, elem(a, c).claimed)
    ensures ClaimsValid(buf, CheckElements(elemSize, elem, addr, n, i, claimed).claimed)
    decreases n - i
  {
    if i < n {
      var c := elem(addr + i * elemSize, claimed);
      if c.result.Pass? {
        CheckElementsPreservesValid(buf, elemSize, elem, addr, n, i + 1, c.claimed);
      }
    }
  }

  /** A slice pointee keeps the claims valid whenever each element check does. */
  lemma SliceContentsKeepValid<E>(buf: Buffer, elemSize: nat, elem: (int, seq<Range>) -> Checked<E>)
    requires forall a, c :: ClaimsValid(buf, c) ==> ClaimsValid(buf, elem(a, c).claimed)
    ensures ContentsKeepValid(buf, SlicePointee(elemSize, elem))
  {
    forall p: TypedPtr, c | ClaimsValid(buf, c)
      ensures ClaimsValid(buf, SlicePointee(elemSize, elem).contents(p, c).claimed)
    {
      CheckElementsPreservesValid(buf, elemSize, elem, p.addr, LenOf(p), 0, c);
    }
  }

  // ---------------------------------------------------------------------------
  // The context as a mutable object

  /**
   * A validation context: the buffer it checks, and the ranges claimed so far
   * in this pass.
   */
  class ValidationContext {
    const buffer: Buffer
    var claimed: seq<Range>

    ghost predicate Valid()
      reads this
    {
      ClaimsValid(buffer, claimed)
    }

    constructor (buffer: Buffer)
      ensures this.buffer == buffer && claimed == [] && Valid()
    {
      this.buffer := buffer;
      claimed := [];
    }

    /** `check_rel_ptr(base, offset)`: bounds-checks the target; changes nothing. */
    method CheckRelPtr(base: int, offset: int) returns (r: Result<int, ContextError>)
      ensures r == CheckRelPtrSpec(buffer, base, offset)
    {
      var pos := base - buffer.begin + offset;
      if pos < 0 || pos > |buffer.bytes| {
        return Err(OutOfBounds(base - buffer.begin, offset, |buffer.bytes|));
      }
      return Ok(base + offset);
    }

    /** `claim_bytes(start, size)`: scans the earlier claims for an overlap, then records the range. */
    method ClaimBytes(start: int, size: nat) returns (r: Outcome<ContextError>)
      modifies this
      ensures ClaimSpec(buffer, old(claimed), start, size).Ok? ==>
        r.Pass? && claimed == ClaimSpec(buffer, old(claimed), start, size).value
      ensures ClaimSpec(buffer, old(claimed), start, size).Err? ==>
        r == Fail(ClaimSpec(buffer, old(claimed), start, size).error) && claimed == old(claimed)
      ensures old(Valid()) ==> Valid()
    {
      ghost var before := claimed;
      var range := Range(start, start + size);
      if !InBuffer(buffer, start, size) {
        return Fail(ClaimOutOfBounds(start - buffer.begin, size, |buffer.bytes|));
      }
      var i := 0;
      while i < |claimed|
        invariant 0 <= i <= |claimed| && claimed == before
        invariant FirstOverlap(claimed, range) == FirstOverlap(claimed[i..], range)
      {
        assert claimed[i..][1..] == claimed[i + 1..];
        if Overlaps(claimed[i], range) {
          return Fail(Overlap(claimed[i], range));
        }
        i := i + 1;
      }
      claimed := claimed + [range];
      r := Pass;
      if old(Valid()) {
        ClaimPreservesValid(buffer, before, start, size);
      }
    }

    /**
     * The shared `check_bytes` body: footprint, `check_rel_ptr`, `augment_ptr`
     * and layout, `claim_bytes`, contents; each failure wrapped by its layer.
     */
    method CheckOwnedPointer<PE, VE>(value: int, k: AugmentKind, augmentCheck: Augment -> Outcome<PE>, pointee: PointeeCheck<VE>)
      returns (r: Result<int, OwnedPointerError<PE, VE, ContextError>>)
      requires FootprintInBuffer(buffer, value, k)
      modifies this
      ensures var v := CheckOwnedSpec(buffer, old(claimed), value, ManualCheckBytes(buffer, value, k, augmentCheck), pointee);
        r == v.result && claimed == v.claimed
    {
      var footprint := ManualCheckBytes(buffer, value, k, augmentCheck);
      if footprint.Err? {
        return Err(PointerCheckBytesError(footprint.error));
      }
      var relPtr := footprint.value;
      var data := CheckRelPtr(Base(value, relPtr), OffsetOf(buffer.width, relPtr));
      if data.Err? {
        return Err(ContextError(data.error));
      }
      var ptr := AugmentPtr(data.value, AugmentOf(relPtr));
      var layout := pointee.layout(ptr);
      if layout.Err? {
        return Err(ValueCheckBytesError(layout.error));
      }
      var claim := ClaimBytes(ptr.addr, layout.value);
      if claim.Fail? {
        return Err(ContextError(claim.error));
      }
      var checked := pointee.contents(ptr, claimed);
      claimed := checked.claimed;
      if checked.result.Fail? {
        return Err(ValueCheckBytesError(checked.result.error));
      }
      return Ok(value);
    }

    /** `ArchivedString::check_bytes`. */
    method CheckString(value: int, utf8: seq<byte> -> bool) returns (r: Result<int, OwnedPointerError<Infallible, StrError, ContextError>>)
      requires FootprintInBuffer(buffer, value, StrKind)
      modifies this
      ensures var v := CheckStringSpec(buffer, old(claimed), value, utf8);
        r == v.result && claimed == v.claimed
      ensures old(Valid()) ==> Valid()
    {
      ghost var before := claimed;
      r := CheckOwnedPointer(value, StrKind, SliceAugmentCheck, StrPointee(buffer, utf8));
      if ClaimsValid(buffer, before) {
        CheckOwnedPreservesValid(buffer, before, value, ManualCheckBytes(buffer, value, StrKind, SliceAugmentCheck), StrPointee(buffer, utf8));
      }
    }

    /** `ArchivedBox<T>::check_bytes`, for a pointee type described by `k`, `augmentCheck` and `pointee`. */
    method CheckBox<PE, VE>(value: int, k: AugmentKind, augmentCheck: Augment -> Outcome<PE>, pointee: PointeeCheck<VE>)
      returns (r: Result<int, OwnedPointerError<PE, VE, ContextError>>)
      requires FootprintInBuffer(buffer, value, k)
      modifies this
      ensures var v := CheckBoxSpec(buffer, old(claimed), value, k, augmentCheck, pointee);
        r == v.result && claimed == v.claimed
      ensures old(Valid()) && ContentsKeepValid(buffer, pointee) ==> Valid()
    {
      ghost var before := claimed;
      r := CheckOwnedPointer(value, k, augmentCheck, pointee);
      if ClaimsValid(buffer, before) && ContentsKeepValid(buffer, pointee) {
        CheckOwnedPreservesValid(buffer, before, value, ManualCheckBytes(buffer, value, k, augmentCheck), pointee);
      }
    }

    /** `ArchivedVec<T>::check_bytes`, for elements of `elemSize` bytes checked by `elem`. */
    method CheckVec<E>(value: int, elemSize: nat, elem: (int, seq<Range>) -> Checked<E>)
      returns (r: Result<int, OwnedPointerError<Infallible, SliceError<E>, ContextError>>)
      requires FootprintInBuffer(buffer, value, SliceKind)
      modifies this
      ensures var v := CheckVecSpec(buffer, old(claimed), value, elemSize, elem);
        r == v.result && claimed == v.claimed
      ensures old(Valid()) && (forall a, c :: ClaimsValid(buffer, c) ==> ClaimsValid(buffer, elem(a, c).claimed)) ==> Valid()
    {
      ghost var before := claimed;
      r := CheckOwnedPointer(value, SliceKind, SliceAugmentCheck, SlicePointee(elemSize, elem));
      if ClaimsValid(buffer, before) && forall a, c :: ClaimsValid(buffer, c) ==> ClaimsValid(buffer, elem(a, c).claimed) {
        SliceContentsKeepValid(buffer, elemSize, elem);
        CheckOwnedPreservesValid(buffer, before, value, ManualCheckBytes(buffer, value, SliceKind, SliceAugmentCheck), SlicePointee(elemSize, elem));
      }
    }
  }
}

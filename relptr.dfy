/**
 * Relative pointers: a signed offset from the pointer's own address plus an
 * inline augment, the `ArchivePtr` step that turns a data address and an
 * augment into a typed (possibly wide) pointer, and the two trusted entry
 * points that view buffer bytes as archived values.
 *
 * Addresses are integers. A buffer that starts at address `start` holds its
 * byte at position `pos` at address `start + pos`.
 */
module RelPtrs {
  import opened Ints

  /**
   * `ArchivePtr::Augment`, as a closed set of pointee kinds: a sized pointee needs
   * nothing, a slice or a string slice needs its length (a `u32` field).
   */
  datatype Augment = Sized | SliceLen(len: u32) | StrLen(len: u32)

  datatype AugmentKind = SizedKind | SliceKind | StrKind

  function KindOf(a: Augment): AugmentKind {
    match a
    case Sized => SizedKind
    case SliceLen(_) => SliceKind
    case StrLen(_) => StrKind
  }

  /** The metadata half of a pointer: none for a thin pointer, an element count for a wide one. */
  datatype Metadata = Thin | Len(count: usize)

  /** `*const T` or `*mut T`. */
  datatype Access = Const | Mut

  /** A typed pointer to a possibly unsized pointee. */
  datatype TypedPtr = TypedPtr(addr: int, meta: Metadata, access: Access)

  /** The element count of a wide pointer. */
  function LenOf(p: TypedPtr): nat {
    if p.meta.Len? then p.meta.count else 0
  }

  function Meta(a: Augment): Metadata {
    match a
    case Sized => Thin
    case SliceLen(n) => Len(n)
    case StrLen(n) => Len(n)
  }

  /**
   * `ArchivePtr::augment_ptr`: a thin pointer for a sized pointee, and a wide
   * pointer carrying `len as usize` for a slice or a string slice.
   */
  function AugmentPtr(data: int, a: Augment): (p: TypedPtr)
    ensures p.addr == data && p.access == Const
    ensures p.meta.Thin? <==> a.Sized?
    ensures !a.Sized? ==> p.meta == Len(a.len)
  {
    TypedPtr(data, Meta(a), Const)
  }

  /** `ArchivePtr::augment_ptr_mut`: the same pointer, mutable. */
  function AugmentPtrMut(data: int, a: Augment): (p: TypedPtr)
    ensures p.addr == data && p.access == Mut
    ensures p.meta.Thin? <==> a.Sized?
    ensures !a.Sized? ==> p.meta == Len(a.len)
  {
    TypedPtr(data, Meta(a), Mut)
  }

  /** A relative pointer's stored fields: the `Offset` and the augment. */
  datatype RelPtr = RelPtr(offset: int, augment: Augment)

  /** The stored offset is a value of the configured `Offset` type. */
  predicate WellFormed(w: Width, p: RelPtr) {
    Fits(w, p.offset)
  }

  /**
   * `to as isize - from as isize` on a 64-bit target: `usize` to `isize`
   * reinterprets the bits, and the subtraction wraps.
   */
  function IsizeDelta(from: usize, to: usize): (d: int)
    ensures Fits(W64, d)
  {
    Wrap(W64, Wrap(W64, to) - Wrap(W64, from))
  }

  /** The wrapped difference has the bit pattern of `to - from`. */
  lemma {:induction false} IsizeDeltaCongruent(from: usize, to: usize)
    ensures Congruent(W64, IsizeDelta(from, to), to - from)
  {
    var a, b := Wrap(W64, to), Wrap(W64, from);
    WrapCongruent(W64, to);
    CongruentSymm(W64, to, a);
    WrapCongruent(W64, from);
    CongruentSymm(W64, from, b);
    CongruentSub(W64, a, to, b, from);
    WrapCongruent(W64, a - b);
    CongruentSymm(W64, a - b, IsizeDelta(from, to));
    CongruentTrans(W64, IsizeDelta(from, to), a - b, to - from);
  }

  /** Narrowing keeps agreement with anything the 64-bit value agrees with. */
  lemma {:induction false} WrapKeepsCongruence(w: Width, d: int, x: int)
    requires Congruent(W64, d, x)
    ensures Congruent(w, Wrap(w, d), x)
  {
    if w == W32 {
      CongruentNarrows(d, x);
    }
    WrapCongruent(w, d);
    CongruentSymm(w, d, Wrap(w, d));
    CongruentTrans(w, Wrap(w, d), d, x);
  }

  /**
   * `RelPtr::new(from, to, augment)`: `(to as isize - from as isize) as Offset`.
   * The stored offset is `to - from` exactly when that fits.
   */
  function New(w: Width, from: usize, to: usize, augment: Augment): (p: RelPtr)
    ensures WellFormed(w, p)
    ensures p.augment == augment
    ensures Fits(w, to - from) ==> p.offset == to - from
  {
    var p := RelPtr(Wrap(w, IsizeDelta(from, to)), augment);
    assert Fits(w, to - from) ==> p.offset == to - from by {
      if Fits(w, to - from) {
        IsizeDeltaCongruent(from, to);
        WrapKeepsCongruence(w, IsizeDelta(from, to), to - from);
        CongruentFitsEqual(w, p.offset, to - from);
      }
    }
    p
  }

  /** Whatever the distance, the stored offset has the bit pattern of `to - from`. */
  lemma {:induction false} NewCongruent(w: Width, from: usize, to: usize, augment: Augment)
    ensures Congruent(w, New(w, from, to, augment).offset, to - from)
  {
    IsizeDeltaCongruent(from, to);
    WrapKeepsCongruence(w, IsizeDelta(from, to), to - from);
  }

  /** Whatever the distance, the stored offset is the width-truncated difference. */
  lemma {:induction false} NewStoresWrappedDelta(w: Width, from: usize, to: usize, augment: Augment)
    ensures New(w, from, to, augment) == RelPtr(Wrap(w, to - from), augment)
  {
    var p := New(w, from, to, augment);
    NewCongruent(w, from, to, augment);
    CongruentSymm(w, p.offset, to - from);
    WrapUnique(w, to - from, p.offset);
  }

  /** `RelPtr::base`: the address of the relative pointer itself. */
  function Base(at: int, p: RelPtr): (r: int)
    ensures r == at
  {
    at
  }

  /** `RelPtr::offset`: `self.offset as isize`, a widening that loses nothing. */
  function OffsetOf(w: Width, p: RelPtr): (r: int)
    ensures WellFormed(w, p) ==> r == p.offset
  {
    Wrap(W64, p.offset)
  }

  /** `RelPtr::augment`. */
  function AugmentOf(p: RelPtr): (r: Augment)
    ensures r == p.augment
  {
    p.augment
  }

  /**
   * `RelPtr::as_ptr` for a relative pointer stored at address `at`: the stored
   * offset is added to its own address and the augment is handed to
   * `augment_ptr`.
   */
  function AsPtr(w: Width, at: int, p: RelPtr): (r: TypedPtr)
    ensures WellFormed(w, p) ==> r == AugmentPtr(at + p.offset, p.augment)
  {
    AugmentPtr(Base(at, p) + OffsetOf(w, p), AugmentOf(p))
  }

  /** `RelPtr::as_mut_ptr`: the same arithmetic through `augment_ptr_mut`. */
  function AsMutPtr(w: Width, at: int, p: RelPtr): (r: TypedPtr)
    ensures WellFormed(w, p) ==> r == AugmentPtrMut(at + p.offset, p.augment)
  {
    AugmentPtrMut(Base(at, p) + OffsetOf(w, p), AugmentOf(p))
  }

  /** `as_mut_ptr` and `as_ptr` reach the same address with the same metadata. */
  lemma {:induction false} AsMutPtrAgreesWithAsPtr(w: Width, at: int, p: RelPtr)
    ensures AsMutPtr(w, at, p) == AsPtr(w, at, p).(access := Mut)
  {
  }

  /**
   * The accessors of a freshly built relative pointer placed at `from`: its base
   * is `from`, its offset the narrowed distance, its augment the one given.
   */
  lemma {:induction false} AccessorsOfNew(w: Width, from: usize, to: usize, a: Augment)
    ensures Base(from, New(w, from, to, a)) == from
    ensures OffsetOf(w, New(w, from, to, a)) == Wrap(w, to - from)
    ensures AugmentOf(New(w, from, to, a)) == a
  {
    NewStoresWrappedDelta(w, from, to, a);
  }

  /**
   * A relative pointer built by `new(from, to, a)` and placed at `from` leads to
   * `to`, with `a` unchanged, whenever the distance fits in `Offset`.
   */
  lemma {:induction false} FollowNew(w: Width, from: usize, to: usize, a: Augment)
    requires Fits(w, to - from)
    ensures AsPtr(w, from, New(w, from, to, a)) == AugmentPtr(to, a)
    ensures AsMutPtr(w, from, New(w, from, to, a)) == AugmentPtrMut(to, a)
  {
  }

  /** An unsized value, by what `make_augment` needs of it. */
  datatype UnsizedValue = StrValue(bytes: seq<byte>) | SliceValue(len: nat)

  function Length(v: UnsizedValue): nat {
    match v
    case StrValue(b) => |b|
    case SliceValue(n) => n
  }

  /** `ArchiveUnsized::make_augment`: the length, cast `as u32`. */
  function MakeAugment(v: UnsizedValue): (a: Augment)
    ensures v.StrValue? ==> a.StrLen?
    ensures v.SliceValue? ==> a.SliceLen?
    ensures !a.Sized? && (Length(v) < TWO_32 ==> a.len == Length(v))
  {
    match v
    case StrValue(b) => StrLen(|b| % TWO_32)
    case SliceValue(n) => SliceLen(n % TWO_32)
  }

  /** `ArchiveUnsized::resolve_unsized`: `make_augment` composed with `new`. */
  function ResolveUnsized(w: Width, v: UnsizedValue, from: usize, to: usize): (p: RelPtr)
    ensures WellFormed(w, p) && p.augment == MakeAugment(v)
    ensures Fits(w, to - from) ==> p.offset == to - from
    ensures Length(v) < TWO_32 ==> p.augment.len == Length(v)
  {
    New(w, from, to, MakeAugment(v))
  }

  /**
   * Following the relative pointer that `resolve_unsized` built at `from` yields
   * the payload address `to` with the value's own length.
   */
  lemma {:induction false} FollowResolveUnsized(w: Width, v: UnsizedValue, from: usize, to: usize)
    requires Fits(w, to - from) && Length(v) < TWO_32
    ensures AsPtr(w, from, ResolveUnsized(w, v, from, to)) == TypedPtr(to, Len(Length(v)), Const)
  {
    FollowNew(w, from, to, MakeAugment(v));
  }

  // Byte image of a relative pointer (field order of `#[repr(C)]`, which the
  // `strict` feature requests: offset, then augment, then padding).

  function AugmentSize(k: AugmentKind): nat {
    if k == SizedKind then 0 else 4
  }

  /** The size of a relative pointer: its fields, padded to the alignment of `Offset`. */
  function FootprintSize(w: Width, k: AugmentKind): (n: nat)
    ensures n >= Bytes(w) + AugmentSize(k)
  {
    if k == SizedKind then Bytes(w) else 2 * Bytes(w)
  }

  /** The bytes that hold a relative pointer's fields; the rest of its footprint is padding. */
  function FieldsSize(w: Width, k: AugmentKind): (n: nat)
    ensures n <= FootprintSize(w, k)
  {
    Bytes(w) + AugmentSize(k)
  }

  function AugmentBytes(a: Augment): (r: seq<byte>)
    ensures |r| == AugmentSize(KindOf(a))
  {
    match a
    case Sized => []
    case SliceLen(n) => EncodeU32(n)
    case StrLen(n) => EncodeU32(n)
  }

  /** The bytes of a relative pointer as it lies in the buffer. */
  function EncodeRelPtr(w: Width, p: RelPtr): (r: seq<byte>)
    requires WellFormed(w, p)
    ensures |r| == FootprintSize(w, KindOf(p.augment))
  {
    var k := KindOf(p.augment);
    EncodeSigned(w, p.offset) + AugmentBytes(p.augment) + Zeros(FootprintSize(w, k) - Bytes(w) - AugmentSize(k))
  }

  /** Reads the fields of a relative pointer of augment kind `k` from its bytes. */
  function DecodeRelPtr(w: Width, bs: seq<byte>, k: AugmentKind): (p: RelPtr)
    requires |bs| == FootprintSize(w, k)
    ensures WellFormed(w, p) && KindOf(p.augment) == k
  {
    var n := Bytes(w);
    var offset := DecodeSigned(w, bs[..n]);
    match k
    case SizedKind => RelPtr(offset, Sized)
    case SliceKind => RelPtr(offset, SliceLen(DecodeU32(bs[n..n + 4])))
    case StrKind => RelPtr(offset, StrLen(DecodeU32(bs[n..n + 4])))
  }

  lemma {:induction false} RelPtrBytesRoundTrip(w: Width, p: RelPtr)
    requires WellFormed(w, p)
    ensures DecodeRelPtr(w, EncodeRelPtr(w, p), KindOf(p.augment)) == p
  {
    var bs := EncodeRelPtr(w, p);
    var n := Bytes(w);
    assert bs[..n] == EncodeSigned(w, p.offset);
    SignedRoundTrip(w, p.offset);
    if !p.augment.Sized? {
      assert bs[n..n + 4] == EncodeU32(p.augment.len);
      U32RoundTrip(p.augment.len);
    }
  }

  /** Decoding looks only at the fields: two footprints that differ in their padding decode alike. */
  lemma {:induction false} DecodeIgnoresPadding(w: Width, bs: seq<byte>, bs': seq<byte>, k: AugmentKind)
    requires |bs| == |bs'| == FootprintSize(w, k)
    requires bs[..FieldsSize(w, k)] == bs'[..FieldsSize(w, k)]
    ensures DecodeRelPtr(w, bs, k) == DecodeRelPtr(w, bs', k)
  {
    var n := Bytes(w);
    assert bs[..n] == bs[..FieldsSize(w, k)][..n];
    assert bs'[..n] == bs'[..FieldsSize(w, k)][..n];
    if k != SizedKind {
      assert bs[n..n + 4] == bs[..FieldsSize(w, k)][n..n + 4];
      assert bs'[n..n + 4] == bs'[..FieldsSize(w, k)][n..n + 4];
    }
  }

  /** The relative pointer of augment kind `k` stored at position `pos` of `bytes`. */
  function ReadRelPtr(w: Width, bytes: seq<byte>, pos: nat, k: AugmentKind): (p: RelPtr)
    requires pos + FootprintSize(w, k) <= |bytes|
    ensures WellFormed(w, p) && KindOf(p.augment) == k
  {
    DecodeRelPtr(w, bytes[pos..pos + FootprintSize(w, k)], k)
  }

  /** A relative pointer written at `pos` reads back unchanged. */
  lemma {:induction false} ReadWrittenRelPtr(w: Width, bytes: seq<byte>, pos: nat, p: RelPtr)
    requires WellFormed(w, p)
    requires pos + FootprintSize(w, KindOf(p.augment)) <= |bytes|
    requires bytes[pos..pos + FootprintSize(w, KindOf(p.augment))] == EncodeRelPtr(w, p)
    ensures ReadRelPtr(w, bytes, pos, KindOf(p.augment)) == p
  {
    RelPtrBytesRoundTrip(w, p);
  }

  /**
   * A relative pointer whose fields were written at `pos` reads back unchanged,
   * whatever its padding bytes hold.
   */
  lemma {:induction false} ReadRelPtrFields(w: Width, bytes: seq<byte>, pos: nat, p: RelPtr)
    requires WellFormed(w, p)
    requires pos + FootprintSize(w, KindOf(p.augment)) <= |bytes|
    requires bytes[pos..pos + FieldsSize(w, KindOf(p.augment))] == EncodeRelPtr(w, p)[..FieldsSize(w, KindOf(p.augment))]
    ensures ReadRelPtr(w, bytes, pos, KindOf(p.augment)) == p
  {
    var k := KindOf(p.augment);
    var stored := bytes[pos..pos + FootprintSize(w, k)];
    assert stored[..FieldsSize(w, k)] == bytes[pos..pos + FieldsSize(w, k)];
    DecodeIgnoresPadding(w, stored, EncodeRelPtr(w, p), k);
    RelPtrBytesRoundTrip(w, p);
  }

  // The trusted entry points.

  /** `archived_value(bytes, pos)`: the archived value lying at position `pos`. */
  function ArchivedValue(start: int, pos: usize): (r: TypedPtr)
    ensures r.addr - start == pos && r.meta == Thin && r.access == Const
  {
    TypedPtr(start + pos, Thin, Const)
  }

  /** `archived_value_mut`: the same view, mutable. */
  function ArchivedValueMut(start: int, pos: usize): (r: TypedPtr)
    ensures r == ArchivedValue(start, pos).(access := Mut)
  {
    TypedPtr(start + pos, Thin, Mut)
  }

  /**
   * `archived_unsized_value(bytes, pos)`: reads the relative pointer at `pos`
   * and follows it, carrying its augment into the result.
   */
  function ArchivedUnsizedValue(w: Width, start: int, bytes: seq<byte>, pos: usize, k: AugmentKind): (r: TypedPtr)
    requires pos + FootprintSize(w, k) <= |bytes|
    ensures r == AugmentPtr(start + pos + ReadRelPtr(w, bytes, pos, k).offset, ReadRelPtr(w, bytes, pos, k).augment)
  {
    var view := ArchivedValue(start, pos);
    AsPtr(w, view.addr, ReadRelPtr(w, bytes, pos, k))
  }

  /** `archived_unsized_value_mut`: the same arithmetic, mutable. */
  function ArchivedUnsizedValueMut(w: Width, start: int, bytes: seq<byte>, pos: usize, k: AugmentKind): (r: TypedPtr)
    requires pos + FootprintSize(w, k) <= |bytes|
    ensures r == ArchivedUnsizedValue(w, start, bytes, pos, k).(access := Mut)
  {
    var view := ArchivedValueMut(start, pos);
    AsMutPtr(w, view.addr, ReadRelPtr(w, bytes, pos, k))
  }

  /**
   * Position independence: moving the whole buffer moves every followed
   * pointer by the same distance.
   */
  lemma {:induction false} ArchivedUnsizedValueRelocates(w: Width, start: int, start': int, bytes: seq<byte>, pos: usize, k: AugmentKind)
    requires pos + FootprintSize(w, k) <= |bytes|
    ensures ArchivedUnsizedValue(w, start', bytes, pos, k).addr - start'
         == ArchivedUnsizedValue(w, start, bytes, pos, k).addr - start
  {
  }

  /**
   * Write-then-follow: if the fields at `pos` are those of a relative pointer
   * built by `new(pos, to, a)`, whatever its padding holds, and the distance
   * fits, `archived_unsized_value` reaches position `to` with augment `a`.
   */
  lemma {:induction false} ArchivedUnsizedValueOfNew(w: Width, start: int, bytes: seq<byte>, pos: usize, to: usize, a: Augment)
    requires Fits(w, to - pos)
    requires pos + FootprintSize(w, KindOf(a)) <= |bytes|
    requires bytes[pos..pos + FieldsSize(w, KindOf(a))] == EncodeRelPtr(w, New(w, pos, to, a))[..FieldsSize(w, KindOf(a))]
    ensures ArchivedUnsizedValue(w, start, bytes, pos, KindOf(a)) == AugmentPtr(start + to, a)
  {
    ReadRelPtrFields(w, bytes, pos, New(w, pos, to, a));
  }
}

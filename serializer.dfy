/**
 * The depth-first write protocol of the archive format, on a serializer whose
 * byte buffer only grows: a value first writes what it owns and keeps the
 * positions in a resolver, and only then is its own footprint resolved at the
 * (aligned) position it will occupy and written. Two worked examples follow
 * it: a string slice archived as if owned (`OwnedStr`), and an unsized block
 * with a string head and an `i32` tail (`Block<String, [i32]>`), reached
 * through a relative pointer.
 *
 * Buffers start at address 0 here, so addresses and positions coincide.
 */
module Serialization {
  import opened Ints
  import opened Wrappers
  import opened RelPtrs

  datatype SerializeError = CapacityExceeded(pos: nat, requested: nat, capacity: nat)

  /** The padding that brings `pos` to a multiple of `align`. */
  function PadLen(pos: nat, align: nat): (n: nat)
    requires align > 0
    ensures (pos + n) % align == 0 && n < align
    ensures pos % align == 0 ==> n == 0
  {
    if pos % align == 0 then 0
    else
      DivMod(pos + (align - pos % align), align, pos / align + 1, 0);
      align - pos % align
  }

  /** Quotient and remainder are determined by `n == a * q + r` with `0 <= r < a`. */
  lemma {:induction false} DivMod(n: int, a: nat, q: int, r: int)
    requires a > 0 && n == a * q + r && 0 <= r < a
    ensures n / a == q && n % a == r
  {
    var d := q - n / a;
    assert a * d == n % a - r;
    if d > 0 {
      assert false;
    } else if d < 0 {
      assert false;
    }
  }

  lemma {:induction false} MultipleMod(a: nat, k: nat)
    requires a > 0
    ensures (a * k) % a == 0
  {
    DivMod(a * k, a, k, 0);
  }

  /**
   * A serializer writing into a buffer of bounded capacity; a write that would
   * exceed it fails and writes nothing.
   */
  class Serializer {
    const width: Width
    const capacity: nat
    var buf: seq<byte>

    constructor (width: Width, capacity: nat)
      ensures this.width == width && this.capacity == capacity && buf == []
      ensures Valid()
    {
      this.width := width;
      this.capacity := capacity;
      buf := [];
    }

    /** The buffer never outgrows the capacity. */
    predicate Valid()
      reads this
    {
      |buf| <= capacity
    }

    /** `Serializer::pos`: where the next byte goes. */
    function Pos(): (r: nat)
      reads this
      ensures r == |buf|
    {
      |buf|
    }

    /** `Serializer::write`. */
    method Write(bytes: seq<byte>) returns (r: Outcome<SerializeError>)
      requires Valid()
      modifies this
      ensures Valid()
      ensures r.Pass? <==> old(|buf|) + |bytes| <= capacity
      ensures buf == if r.Pass? then old(buf) + bytes else old(buf)
    {
      if |buf| + |bytes| > capacity {
        return Fail(CapacityExceeded(|buf|, |bytes|, capacity));
      }
      buf := buf + bytes;
      return Pass;
    }

    /** `Serializer::align_for`: pads with zeros until the position is a multiple of `align`. */
    method AlignFor(align: nat) returns (r: Outcome<SerializeError>)
      requires align > 0 && Valid()
      modifies this
      ensures Valid()
      ensures r.Pass? <==> old(|buf|) + PadLen(old(|buf|), align) <= capacity
      ensures buf == if r.Pass? then old(buf) + Zeros(PadLen(old(|buf|), align)) else old(buf)
      ensures old(|buf|) % align == 0 ==> r.Pass? && buf == old(buf)
      ensures r.Pass? ==> |buf| % align == 0
    {
      var offset := |buf| % align;
      if offset != 0 {
        r := Write(Zeros(align - offset));
      } else {
        r := Pass;
      }
    }
  }

  // ---------------------------------------------------------------------------
  // Where byte strings lie within a buffer

  /** `m` occurs in `bytes` at `at`. */
  ghost predicate Contains(bytes: seq<byte>, at: nat, m: seq<byte>) {
    at + |m| <= |bytes| && bytes[at..at + |m|] == m
  }

  lemma {:induction false} SliceOfSlice(s: seq<byte>, i: nat, j: nat, k: nat, l: nat)
    requires i <= j <= |s| && k <= l <= j - i
    ensures s[i..j][k..l] == s[i + k..i + l]
  {
    forall x | 0 <= x < l - k
      ensures s[i..j][k..l][x] == s[i + k..i + l][x]
    {
      assert s[i..j][k..l][x] == s[i..j][k + x] == s[i + k + x];
    }
  }

  /** Where the second and the last of four parts of a concatenation lie. */
  lemma {:induction false} FourParts(p0: seq<byte>, p1: seq<byte>, p2: seq<byte>, p3: seq<byte>, at1: nat, at3: nat)
    requires at1 == |p0| && at3 == at1 + |p1| + |p2|
    ensures Contains(p0 + p1 + p2 + p3, at1, p1) && Contains(p0 + p1 + p2 + p3, at3, p3)
  {
    var x := p0 + p1 + p2 + p3;
    assert x[at1..at1 + |p1|] == p1;
    assert x[at3..at3 + |p3|] == p3;
  }

  // ---------------------------------------------------------------------------
  // Archived strings: `OwnedStr` and the head of a block

  /** A string slice held by reference, archived as if owned; `inner` is its UTF-8 bytes. */
  datatype OwnedStr = OwnedStr(inner: seq<byte>)

  /** Where the bytes of the string were written. */
  datatype OwnedStrResolver = OwnedStrResolver(bytesPos: nat)

  /** `ArchivedOwnedStr`: a single field, a relative pointer to a `str`. */
  datatype ArchivedOwnedStr = ArchivedOwnedStr(ptr: RelPtr)

  /** `offset_of!(ArchivedOwnedStr, ptr)`. */
  const PTR_FIELD_OFFSET: nat := 0

  /** The size and the alignment of an archived string: those of its relative pointer. */
  function ArchivedStrSize(w: Width): nat {
    FootprintSize(w, StrKind)
  }

  /**
   * `OwnedStr::resolve`: the relative pointer goes from the address of the
   * `ptr` field, `pos + offset_of!(ptr)`, to the bytes the resolver recorded.
   */
  function ResolveOwnedStr(w: Width, v: OwnedStr, pos: nat, resolver: OwnedStrResolver): (a: ArchivedOwnedStr)
    requires pos + PTR_FIELD_OFFSET < TWO_64 && resolver.bytesPos < TWO_64
    ensures WellFormed(w, a.ptr) && a.ptr.augment.StrLen?
  {
    ArchivedOwnedStr(ResolveUnsized(w, StrValue(v.inner), pos + PTR_FIELD_OFFSET, resolver.bytesPos))
  }

  /**
   * The resolved pointer, followed from the `ptr` field, leads to the string's
   * bytes with the string's length, whenever the distance fits in `Offset`.
   */
  lemma {:induction false} ResolvedStrLeadsToBytes(w: Width, v: OwnedStr, pos: nat, resolver: OwnedStrResolver)
    requires pos + PTR_FIELD_OFFSET < TWO_64 && resolver.bytesPos < TWO_64
    requires Fits(w, resolver.bytesPos - (pos + PTR_FIELD_OFFSET)) && |v.inner| < TWO_32
    ensures AsPtr(w, pos + PTR_FIELD_OFFSET, ResolveOwnedStr(w, v, pos, resolver).ptr)
      == TypedPtr(resolver.bytesPos, Len(|v.inner|), Const)
  {
    FollowResolveUnsized(w, StrValue(v.inner), pos + PTR_FIELD_OFFSET, resolver.bytesPos);
  }

  function ArchivedOwnedStrBytes(w: Width, a: ArchivedOwnedStr): (r: seq<byte>)
    requires WellFormed(w, a.ptr) && a.ptr.augment.StrLen?
    ensures |r| == ArchivedStrSize(w)
  {
    EncodeRelPtr(w, a.ptr)
  }

  /**
   * The bytes of the archived string at `pos` whose pointer is resolved
   * against the string's bytes `inner` written at `bytesPos`.
   */
  function StrFootprint(w: Width, pos: nat, bytesPos: nat, inner: seq<byte>): (r: seq<byte>)
    requires pos < TWO_64 && bytesPos < TWO_64
    ensures |r| == ArchivedStrSize(w)
  {
    ArchivedOwnedStrBytes(w, ResolveOwnedStr(w, OwnedStr(inner), pos, OwnedStrResolver(bytesPos)))
  }

  /**
   * The string an archived string at address `at` of `bytes` refers to, by
   * `as_ptr` on its relative pointer; `None` where the target is outside the
   * buffer.
   */
  function ReadStr(w: Width, bytes: seq<byte>, at: usize): (r: Option<seq<byte>>)
    requires at + ArchivedStrSize(w) <= |bytes|
    ensures r.Some? ==> |r.value| == ReadRelPtr(w, bytes, at, StrKind).augment.len
  {
    var p := AsPtr(w, at, ReadRelPtr(w, bytes, at, StrKind));
    var n := LenOf(p);
    if 0 <= p.addr && p.addr + n <= |bytes| then Some(bytes[p.addr..p.addr + n]) else None
  }

  /** `ArchivedOwnedStr::as_str` on `archived_value(bytes, pos)`. */
  function AsStr(w: Width, bytes: seq<byte>, pos: usize): (r: Option<seq<byte>>)
    requires pos + PTR_FIELD_OFFSET + ArchivedStrSize(w) <= |bytes|
    ensures r == ReadStr(w, bytes, pos + PTR_FIELD_OFFSET)
  {
    ReadStr(w, bytes, ArchivedValue(0, pos).addr + PTR_FIELD_OFFSET)
  }

  /**
   * An archived string written at `pos`, resolved against bytes `s` written at
   * `bytesPos`, reads back as `s`.
   */
  lemma {:induction false} ReadResolvedStr(w: Width, bytes: seq<byte>, pos: nat, bytesPos: nat, s: seq<byte>)
    requires pos + ArchivedStrSize(w) <= |bytes| < TWO_64
    requires bytesPos + |s| <= |bytes| && bytes[bytesPos..bytesPos + |s|] == s
    requires Fits(w, bytesPos - pos) && |s| < TWO_32
    requires bytes[pos..pos + ArchivedStrSize(w)] == StrFootprint(w, pos, bytesPos, s)
    ensures ReadStr(w, bytes, pos) == Some(s)
  {
    var a := ResolveOwnedStr(w, OwnedStr(s), pos, OwnedStrResolver(bytesPos));
    ResolvedStrLeadsToBytes(w, OwnedStr(s), pos, OwnedStrResolver(bytesPos));
    ReadStrOfPtr(w, bytes, pos, a.ptr, bytesPos, s);
  }

  /** An archived string that points back at bytes `inner` lying at `start` reads back as `inner`. */
  lemma {:induction false} ReadStrAt(w: Width, bytes: seq<byte>, start: nat, pos: nat, inner: seq<byte>)
    requires start <= pos && pos + ArchivedStrSize(w) <= MaxValue(w) && |bytes| < TWO_64
    requires |inner| < TWO_32
    requires Contains(bytes, start, inner)
    requires Contains(bytes, pos, StrFootprint(w, pos, start, inner))
    ensures ReadStr(w, bytes, pos) == Some(inner)
  {
    ReadResolvedStr(w, bytes, pos, start, inner);
  }

  /** A relative pointer written at `pos` that leads to `s` makes `s` read back there. */
  lemma {:induction false} ReadStrOfPtr(w: Width, bytes: seq<byte>, pos: nat, p: RelPtr, bytesPos: nat, s: seq<byte>)
    requires WellFormed(w, p) && p.augment.StrLen? && |s| < TWO_32
    requires pos + ArchivedStrSize(w) <= |bytes| < TWO_64
    requires bytes[pos..pos + ArchivedStrSize(w)] == EncodeRelPtr(w, p)
    requires AsPtr(w, pos, p) == TypedPtr(bytesPos, Len(|s|), Const)
    requires bytesPos + |s| <= |bytes| && bytes[bytesPos..bytesPos + |s|] == s
    ensures ReadStr(w, bytes, pos) == Some(s)
  {
    ReadWrittenRelPtr(w, bytes, pos, p);
    FollowReadPtr(w, bytes, pos, p, bytesPos, s);
  }

  lemma {:induction false} FollowReadPtr(w: Width, bytes: seq<byte>, pos: nat, p: RelPtr, bytesPos: nat, s: seq<byte>)
    requires WellFormed(w, p) && p.augment.StrLen? && |s| < TWO_32
    requires pos + ArchivedStrSize(w) <= |bytes| < TWO_64
    requires ReadRelPtr(w, bytes, pos, StrKind) == p
    requires AsPtr(w, pos, p) == TypedPtr(bytesPos, Len(|s|), Const)
    requires bytesPos + |s| <= |bytes| && bytes[bytesPos..bytesPos + |s|] == s
    ensures ReadStr(w, bytes, pos) == Some(s)
  {
  }

  /** `OwnedStr::serialize`: records the position, then writes the bytes. */
  method SerializeOwnedStr(s: Serializer, v: OwnedStr) returns (r: Result<OwnedStrResolver, SerializeError>)
    requires s.Valid()
    modifies s
    ensures s.Valid()
    ensures r.Ok? <==> old(|s.buf|) + |v.inner| <= s.capacity
    ensures r.Ok? ==> r.value == OwnedStrResolver(old(|s.buf|)) && s.buf == old(s.buf) + v.inner
    ensures r.Err? ==> s.buf == old(s.buf)
  {
    var bytesPos := s.Pos();
    :- s.Write(v.inner);
    return Ok(OwnedStrResolver(bytesPos));
  }

  /**
   * `resolve_aligned` for an `OwnedStr`: resolves at the current position,
   * which the caller has aligned, and writes the footprint there.
   */
  method ResolveAlignedOwnedStr(s: Serializer, v: OwnedStr, resolver: OwnedStrResolver) returns (r: Result<nat, SerializeError>)
    requires s.Valid() && s.capacity < TWO_64 && resolver.bytesPos < TWO_64
    requires |s.buf| % Bytes(s.width) == 0
    modifies s
    ensures s.Valid()
    ensures r.Ok? <==> old(|s.buf|) + ArchivedStrSize(s.width) <= s.capacity
    ensures r.Ok? ==> r.value == old(|s.buf|) && s.buf == old(s.buf) + StrFootprint(s.width, r.value, resolver.bytesPos, v.inner)
    ensures r.Err? ==> s.buf == old(s.buf)
  {
    var pos := s.Pos();
    var archived := ResolveOwnedStr(s.width, v, pos, resolver);
    :- s.Write(ArchivedOwnedStrBytes(s.width, archived));
    return Ok(pos);
  }

  /** The position at which `archive` places an `OwnedStr` when the buffer holds `start` bytes. */
  function OwnedStrPos(w: Width, start: nat, v: OwnedStr): nat {
    start + |v.inner| + PadLen(start + |v.inner|, Bytes(w))
  }

  /**
   * `Serializer::archive` for an `OwnedStr`: serialize (the bytes), align, and
   * resolve the footprint. On success the buffer is the old one followed by the
   * string's bytes, padding and the footprint, in that order, and `as_str` on
   * the returned position gives back the string.
   */
  method ArchiveOwnedStr(s: Serializer, v: OwnedStr) returns (r: Result<nat, SerializeError>)
    requires s.Valid() && s.capacity <= MaxValue(s.width)
    modifies s
    ensures s.Valid()
    ensures r.Ok? <==> OwnedStrPos(s.width, old(|s.buf|), v) + ArchivedStrSize(s.width) <= s.capacity
    ensures r.Ok? ==> && r.value == OwnedStrPos(s.width, old(|s.buf|), v)
                      && s.buf == old(s.buf) + v.inner + Zeros(PadLen(old(|s.buf|) + |v.inner|, Bytes(s.width)))
                                  + StrFootprint(s.width, r.value, old(|s.buf|), v.inner)
    ensures r.Ok? && |v.inner| < TWO_32 ==> AsStr(s.width, s.buf, r.value) == Some(v.inner)
  {
    ghost var start := |s.buf|;
    var resolver :- SerializeOwnedStr(s, v);
    assert |s.buf| == start + |v.inner|;
    ghost var pad := PadLen(start + |v.inner|, Bytes(s.width));
    :- s.AlignFor(Bytes(s.width));
    assert s.buf == old(s.buf) + v.inner + Zeros(pad);
    assert |s.buf| == start + |v.inner| + pad == OwnedStrPos(s.width, start, v);
    r := ResolveAlignedOwnedStr(s, v, resolver);
    if r.Ok? && |v.inner| < TWO_32 {
      ReadOwnedStrBack(s.width, old(s.buf), v.inner, Zeros(pad), r.value);
    }
  }

  /** The read-back half of `ArchiveOwnedStr`, on the final shape of the buffer. */
  lemma {:induction false} ReadOwnedStrBack(w: Width, before: seq<byte>, inner: seq<byte>, padding: seq<byte>, pos: nat)
    requires pos == |before| + |inner| + |padding| && pos + ArchivedStrSize(w) <= MaxValue(w)
    requires |inner| < TWO_32
    ensures AsStr(w, before + inner + padding + StrFootprint(w, pos, |before|, inner), pos) == Some(inner)
  {
    var footprint := StrFootprint(w, pos, |before|, inner);
    FourParts(before, inner, padding, footprint, |before|, pos);
    ReadStrAt(w, before + inner + padding + footprint, |before|, pos, inner);
  }

  /** Bytes of an ASCII text, as `str::as_bytes` gives them. */
  function Ascii(t: string): (r: seq<byte>)
    requires forall i :: 0 <= i < |t| ==> t[i] < 128 as char
    ensures |r| == |t|
  {
    seq(|t|, i requires 0 <= i < |t| => t[i] as int)
  }

  /** The `OwnedStr` doc example: archive "I'm in an OwnedStr!" and read it back through `as_str`. */
  method ArchiveOwnedStrExample() returns (text: Option<seq<byte>>)
    ensures text == Some(Ascii("I'm in an OwnedStr!"))
  {
    var s := new Serializer(W32, MaxValue(W32));
    var value := OwnedStr(Ascii("I'm in an OwnedStr!"));
    var r := ArchiveOwnedStr(s, value);
    assert r.Ok?;
    text := AsStr(W32, s.buf, r.value);
  }

  // ---------------------------------------------------------------------------
  // The unsized block `Block<String, [i32]>`

  /** A block with a string head (its UTF-8 bytes) and a trailing slice of `i32`. */
  datatype Block = Block(head: seq<byte>, tail: seq<i32>)

  /** `i32::serialize`: a primitive owns nothing, so nothing is written and nothing can fail. */
  function SerializeI32(x: i32): () {
    ()
  }

  /** The little-endian bytes of a sequence of `i32`, one after the other. */
  function EncodeI32s(t: seq<i32>): (r: seq<byte>)
    ensures |r| == 4 * |t|
  {
    if |t| == 0 then [] else EncodeI32s(t[..|t| - 1]) + EncodeSigned(W32, t[|t| - 1])
  }

  /** Encoding one more element of a prefix appends its bytes. */
  lemma {:induction false} EncodeI32sPrefix(t: seq<i32>, i: nat)
    requires i < |t|
    ensures EncodeI32s(t[..i + 1]) == EncodeI32s(t[..i]) + EncodeSigned(W32, t[i])
  {
    assert t[..i + 1][..i] == t[..i];
  }

  /** Element `i` of an encoded sequence sits at bytes `4 * i` to `4 * i + 4`. */
  lemma {:induction false} EncodedI32At(t: seq<i32>, i: nat)
    requires i < |t|
    ensures EncodeI32s(t)[4 * i..4 * i + 4] == EncodeSigned(W32, t[i])
  {
    var init := t[..|t| - 1];
    assert EncodeI32s(t) == EncodeI32s(init) + EncodeSigned(W32, t[|t| - 1]);
    if i < |t| - 1 {
      EncodedI32At(init, i);
      assert init[i] == t[i];
      assert EncodeI32s(t)[4 * i..4 * i + 4] == EncodeI32s(init)[4 * i..4 * i + 4];
    } else {
      assert EncodeI32s(t)[4 * i..4 * i + 4] == EncodeI32s(t)[|EncodeI32s(init)|..];
    }
  }

  /** The `n` little-endian `i32`s starting at `at`. */
  function ReadI32s(bytes: seq<byte>, at: nat, n: nat): (r: seq<i32>)
    requires at + 4 * n <= |bytes|
    ensures |r| == n
  {
    seq(n, i requires 0 <= i < n => DecodeSigned(W32, bytes[at + 4 * i..at + 4 * i + 4]))
  }

  /** Encoded `i32`s read back unchanged. */
  lemma {:induction false} ReadEncodedI32s(bytes: seq<byte>, at: nat, t: seq<i32>)
    requires at + 4 * |t| <= |bytes| && bytes[at..at + 4 * |t|] == EncodeI32s(t)
    ensures ReadI32s(bytes, at, |t|) == t
  {
    var r := ReadI32s(bytes, at, |t|);
    forall i | 0 <= i < |t|
      ensures r[i] == t[i]
    {
      ReadI32sAt(bytes, at, |t|, i);
      ReadEncodedI32(bytes, at, t, i);
    }
  }

  lemma {:induction false} ReadI32sAt(bytes: seq<byte>, at: nat, n: nat, i: nat)
    requires at + 4 * n <= |bytes| && i < n
    ensures ReadI32s(bytes, at, n)[i] == DecodeSigned(W32, bytes[at + 4 * i..at + 4 * i + 4])
  {
  }

  lemma {:induction false} ReadEncodedI32(bytes: seq<byte>, at: nat, t: seq<i32>, i: nat)
    requires at + 4 * |t| <= |bytes| && bytes[at..at + 4 * |t|] == EncodeI32s(t)
    requires i < |t|
    ensures DecodeSigned(W32, bytes[at + 4 * i..at + 4 * i + 4]) == t[i]
  {
    WindowOfWindow(bytes, at, |t|, EncodeI32s(t), i);
    DecodeEncodedI32(t, i);
  }

  lemma {:induction false} WindowOfWindow(bytes: seq<byte>, at: nat, n: nat, window: seq<byte>, i: nat)
    requires at + 4 * n <= |bytes| && bytes[at..at + 4 * n] == window
    requires i < n
    ensures bytes[at + 4 * i..at + 4 * i + 4] == window[4 * i..4 * i + 4]
  {
    SliceOfSlice(bytes, at, at + 4 * n, 4 * i, 4 * i + 4);
  }

  lemma {:induction false} DecodeEncodedI32(t: seq<i32>, i: nat)
    requires i < |t|
    ensures DecodeSigned(W32, EncodeI32s(t)[4 * i..4 * i + 4]) == t[i]
  {
    EncodedI32At(t, i);
    SignedRoundTrip(W32, t[i]);
  }

  /**
   * The alignment of `Block<ArchivedString, [i32; 0]>`: the larger of the
   * relative pointer's and `i32`'s.
   */
  function BlockAlign(w: Width): nat {
    Bytes(w)
  }

  /** Where `serialize_unsized` puts the block when the buffer holds `start` bytes. */
  function BlockPos(w: Width, start: nat, b: Block): nat {
    start + |b.head| + PadLen(start + |b.head|, BlockAlign(w))
  }

  /** How many bytes `serialize_unsized` writes for the block. */
  function BlockLen(w: Width, start: nat, b: Block): nat {
    BlockPos(w, start, b) - start + ArchivedStrSize(w) + 4 * |b.tail|
  }

  /**
   * What `serialize_unsized` writes: the head's bytes (the only dependency; an
   * `i32` has none), padding, the head's archived string at the block's
   * position, and the tail's elements straight after it.
   */
  function BlockBytes(w: Width, start: nat, b: Block): (r: seq<byte>)
    requires start + BlockLen(w, start, b) <= MaxValue(w)
    ensures |r| == BlockLen(w, start, b)
  {
    b.head + Zeros(PadLen(start + |b.head|, BlockAlign(w)))
      + StrFootprint(w, BlockPos(w, start, b), start, b.head)
      + EncodeI32s(b.tail)
  }

  /**
   * `resolve_aligned` for an `i32` and its resolver: the caller has aligned
   * the position. The resolver carries nothing, so only the value is written.
   */
  method ResolveAlignedI32(s: Serializer, x: i32, resolver: ()) returns (r: Result<nat, SerializeError>)
    requires s.Valid() && |s.buf| % 4 == 0
    modifies s
    ensures s.Valid()
    ensures r.Ok? <==> old(|s.buf|) + 4 <= s.capacity
    ensures r.Ok? ==> r.value == old(|s.buf|) && s.buf == old(s.buf) + EncodeSigned(W32, x)
    ensures r.Err? ==> s.buf == old(s.buf)
  {
    var pos := s.Pos();
    :- s.Write(EncodeSigned(W32, x));
    return Ok(pos);
  }

  lemma {:induction false} ConcatAssoc(a: seq<byte>, b: seq<byte>, c: seq<byte>)
    ensures a + (b + c) == a + b + c
  {
  }

  /** The tail follows the head's archived string without padding. */
  lemma {:induction false} TailAligned(w: Width, pos: nat)
    requires pos % BlockAlign(w) == 0
    ensures (pos + ArchivedStrSize(w)) % 4 == 0
  {
    var q := pos / Bytes(w);
    assert pos == Bytes(w) * q;
    if w == W32 {
      assert pos + ArchivedStrSize(w) == 4 * (q + 2);
      MultipleMod(4, q + 2);
    } else {
      assert pos + ArchivedStrSize(w) == 4 * (2 * q + 4);
      MultipleMod(4, 2 * q + 4);
    }
  }

  /**
   * `resolve_aligned` on each element of a tail zipped with its resolver, in
   * turn, with no padding between them.
   */
  method ResolveAlignedI32s(s: Serializer, tail: seq<i32>, resolvers: seq<()>) returns (r: Outcome<SerializeError>)
    requires s.Valid() && |s.buf| % 4 == 0 && |resolvers| == |tail|
    modifies s
    ensures s.Valid()
    ensures r.Pass? <==> old(|s.buf|) + 4 * |tail| <= s.capacity
    ensures r.Pass? ==> s.buf == old(s.buf) + EncodeI32s(tail)
  {
    for i := 0 to |tail|
      invariant s.Valid()
      invariant s.buf == old(s.buf) + EncodeI32s(tail[..i])
      invariant old(|s.buf|) + 4 * i <= s.capacity
    {
      var written := ResolveAlignedI32(s, tail[i], resolvers[i]);
      if written.Err? {
        return Fail(written.error);
      }
      EncodeI32sPrefix(tail, i);
    }
    assert tail[..|tail|] == tail;
    return Pass;
  }

  /**
   * The second half of `Block::serialize_unsized`, once the dependencies are
   * written: align for the block, resolve the head there, align for `i32` and
   * resolve the tail's elements in order. The block's position is returned.
   */
  method WriteBlock(s: Serializer, b: Block, headResolver: OwnedStrResolver, tailResolvers: seq<()>) returns (r: Result<nat, SerializeError>)
    requires s.Valid() && s.capacity <= MaxValue(s.width) && headResolver.bytesPos < TWO_64
    requires |tailResolvers| == |b.tail|
    modifies s
    ensures s.Valid()
    ensures r.Ok? <==> old(|s.buf|) + PadLen(old(|s.buf|), BlockAlign(s.width)) + ArchivedStrSize(s.width) + 4 * |b.tail| <= s.capacity
    ensures r.Ok? ==>
      && r.value == old(|s.buf|) + PadLen(old(|s.buf|), BlockAlign(s.width))
      && s.buf == old(s.buf) + (Zeros(PadLen(old(|s.buf|), BlockAlign(s.width)))
                                + StrFootprint(s.width, r.value, headResolver.bytesPos, b.head) + EncodeI32s(b.tail))
  {
    ghost var start := |s.buf|;
    ghost var pad := PadLen(start, BlockAlign(s.width));
    :- s.AlignFor(BlockAlign(s.width));
    assert |s.buf| == start + pad;
    var result :- ResolveAlignedOwnedStr(s, OwnedStr(b.head), headResolver);
    assert result == start + pad && |s.buf| == start + pad + ArchivedStrSize(s.width);
    TailAligned(s.width, result);
    var tailAligned := s.AlignFor(4);
    assert tailAligned.Pass?;
    :- ResolveAlignedI32s(s, b.tail, tailResolvers);
    ghost var footprint := StrFootprint(s.width, result, headResolver.bytesPos, b.head);
    ConcatAssoc(old(s.buf), Zeros(pad), footprint);
    ConcatAssoc(old(s.buf), Zeros(pad) + footprint, EncodeI32s(b.tail));
    return Ok(result);
  }

  /**
   * `Block::serialize_unsized`: all dependencies first (the head's bytes; an
   * `i32` has none), then the block's own bytes at an aligned position, which
   * is returned.
   */
  method SerializeBlockUnsized(s: Serializer, b: Block) returns (r: Result<nat, SerializeError>)
    requires s.Valid() && s.capacity <= MaxValue(s.width)
    modifies s
    ensures s.Valid()
    ensures r.Ok? <==> old(|s.buf|) + BlockLen(s.width, old(|s.buf|), b) <= s.capacity
    ensures r.Ok? ==> && r.value == BlockPos(s.width, old(|s.buf|), b)
                      && s.buf == old(s.buf) + BlockBytes(s.width, old(|s.buf|), b)
  {
    var headResolver :- SerializeOwnedStr(s, OwnedStr(b.head));
    var tailResolvers: seq<()> := [];
    for i := 0 to |b.tail|
      invariant |tailResolvers| == i
    {
      var tailResolver := SerializeI32(b.tail[i]);
      tailResolvers := tailResolvers + [tailResolver];
    }
    ghost var start := old(|s.buf|);
    assert headResolver.bytesPos == start && |s.buf| == start + |b.head|;
    assert BlockLen(s.width, start, b)
      == |b.head| + PadLen(start + |b.head|, BlockAlign(s.width)) + ArchivedStrSize(s.width) + 4 * |b.tail|;
    r := WriteBlock(s, b, headResolver, tailResolvers);
    if r.Ok? {
      ghost var pad := Zeros(PadLen(start + |b.head|, BlockAlign(s.width)));
      ghost var footprint := StrFootprint(s.width, BlockPos(s.width, start, b), start, b.head);
      assert r.value == BlockPos(s.width, start, b);
      ghost var written := pad + footprint + EncodeI32s(b.tail);
      assert s.buf == old(s.buf) + b.head + written;
      ConcatAssoc(b.head, pad, footprint);
      ConcatAssoc(b.head, pad + footprint, EncodeI32s(b.tail));
      assert BlockBytes(s.width, start, b) == b.head + written;
      ConcatAssoc(old(s.buf), b.head, written);
    }
  }

  /** Where `archive_ref` puts the relative pointer to the block. */
  function RefPos(w: Width, start: nat, b: Block): nat {
    var end := start + BlockLen(w, start, b);
    end + PadLen(end, Bytes(w))
  }

  /**
   * The archived block a pointer designates: the head through the archived
   * string at the block's start, and as many `i32`s as the pointer's metadata
   * says right after it; `None` where any of it lies outside `bytes`.
   */
  function ReadBlock(w: Width, bytes: seq<byte>, p: TypedPtr): (r: Option<Block>)
    ensures r.Some? ==> |r.value.tail| == LenOf(p)
    ensures r.Some? ==> 0 <= p.addr < TWO_64 && p.addr + ArchivedStrSize(w) <= |bytes| && ReadStr(w, bytes, p.addr) == Some(r.value.head)
  {
    var n := LenOf(p);
    var tailAt := p.addr + ArchivedStrSize(w);
    if 0 <= p.addr < TWO_64 && tailAt + 4 * n <= |bytes| then
      var head := ReadStr(w, bytes, p.addr);
      if head.Some? then Some(Block(head.value, ReadI32s(bytes, tailAt, n))) else None
    else None
  }

  /**
   * What `archive_ref` appends for a block when the buffer holds `start`
   * bytes: the block, padding to the relative pointer's alignment, and the
   * relative pointer from its own position to the block.
   */
  function RefBytes(w: Width, start: nat, b: Block): (r: seq<byte>)
    requires RefPos(w, start, b) + FootprintSize(w, SliceKind) <= MaxValue(w)
    ensures |r| == RefPos(w, start, b) - start + FootprintSize(w, SliceKind)
  {
    BlockBytes(w, start, b) + (Zeros(RefPos(w, start, b) - start - BlockLen(w, start, b))
      + EncodeRelPtr(w, ResolveUnsized(w, SliceValue(|b.tail|), RefPos(w, start, b), BlockPos(w, start, b))))
  }

  /**
   * `Serializer::archive_ref` for a block: `serialize_unsized`, align for the
   * relative pointer, and write the pointer from its own position to the
   * block; the pointer's position is returned.
   */
  method ArchiveRefBlock(s: Serializer, b: Block) returns (r: Result<nat, SerializeError>)
    requires s.Valid() && s.capacity <= MaxValue(s.width)
    modifies s
    ensures s.Valid()
    ensures r.Ok? <==> RefPos(s.width, old(|s.buf|), b) + FootprintSize(s.width, SliceKind) <= s.capacity
    ensures r.Ok? ==> r.value == RefPos(s.width, old(|s.buf|), b) && s.buf == old(s.buf) + RefBytes(s.width, old(|s.buf|), b)
  {
    ghost var start := |s.buf|;
    var to :- SerializeBlockUnsized(s, b);
    ghost var blocked := s.buf;
    assert |blocked| == start + BlockLen(s.width, start, b);
    assert RefPos(s.width, start, b) == |blocked| + PadLen(|blocked|, Bytes(s.width));
    r := WriteSliceRef(s, to, |b.tail|);
    if r.Ok? {
      ArchivedRefBytes(s.width, old(s.buf), b, |blocked|, to, r.value);
    }
  }

  /**
   * The block, the padding up to `from` and the relative pointer from `from`
   * to the block's position are, together, what `archive_ref` appends.
   */
  lemma {:induction false} ArchivedRefBytes(w: Width, before: seq<byte>, b: Block, end: nat, to: nat, from: nat)
    requires end == |before| + BlockLen(w, |before|, b) && to == BlockPos(w, |before|, b) && from == RefPos(w, |before|, b)
    requires from + FootprintSize(w, SliceKind) <= MaxValue(w)
    ensures before + BlockBytes(w, |before|, b) + Zeros(from - end) + EncodeRelPtr(w, ResolveUnsized(w, SliceValue(|b.tail|), from, to))
         == before + RefBytes(w, |before|, b)
  {
    ConcatAssoc3(before, BlockBytes(w, |before|, b), Zeros(from - end), EncodeRelPtr(w, ResolveUnsized(w, SliceValue(|b.tail|), from, to)));
  }

  lemma {:induction false} ConcatAssoc3(a: seq<byte>, b: seq<byte>, c: seq<byte>, d: seq<byte>)
    ensures a + b + c + d == a + (b + (c + d))
  {
  }

  /**
   * The last step of `archive_ref` for a slice: align for the relative
   * pointer and write it, from its own position to the `n` elements at `to`
   * that precede it. On success that position is returned.
   */
  method WriteSliceRef(s: Serializer, to: nat, n: nat) returns (r: Result<nat, SerializeError>)
    requires s.Valid() && s.capacity <= MaxValue(s.width) && to <= |s.buf|
    modifies s
    ensures s.Valid()
    ensures r.Ok? <==> old(|s.buf|) + PadLen(old(|s.buf|), Bytes(s.width)) + FootprintSize(s.width, SliceKind) <= s.capacity
    ensures r.Ok? ==>
      && r.value == old(|s.buf|) + PadLen(old(|s.buf|), Bytes(s.width))
      && s.buf == old(s.buf) + Zeros(r.value - old(|s.buf|)) + EncodeRelPtr(s.width, ResolveUnsized(s.width, SliceValue(n), r.value, to))
  {
    var aligned := s.AlignFor(Bytes(s.width));
    if aligned.Fail? {
      return Err(aligned.error);
    }
    var from := s.Pos();
    var ptr := ResolveUnsized(s.width, SliceValue(n), from, to);
    :- s.Write(EncodeRelPtr(s.width, ptr));
    r := Ok(from);
  }

  /**
   * Where the parts of a block at `pos` lie in `bytes` when `serialize_unsized`
   * began with `start` bytes written: the head's bytes at `start`, the head's
   * archived string at `pos`, and the tail right after it.
   */
  ghost predicate BlockLaidOut(w: Width, bytes: seq<byte>, start: nat, pos: nat, b: Block)
    requires start <= pos < TWO_64
  {
    && Contains(bytes, start, b.head)
    && Contains(bytes, pos, StrFootprint(w, pos, start, b.head))
    && Contains(bytes, pos + ArchivedStrSize(w), EncodeI32s(b.tail))
  }

  /** The block's parts, and a relative pointer at `from` to the block at `pos` as `archive_ref` writes it. */
  ghost predicate RefLaidOut(w: Width, bytes: seq<byte>, start: nat, pos: nat, from: nat, b: Block)
    requires start <= pos <= from < TWO_64
  {
    && BlockLaidOut(w, bytes, start, pos, b)
    && Contains(bytes, from, EncodeRelPtr(w, ResolveUnsized(w, SliceValue(|b.tail|), from, pos)))
  }

  /** Where three of the parts of a concatenation lie, whatever follows them. */
  lemma {:induction false} BlockParts(p0: seq<byte>, p1: seq<byte>, p2: seq<byte>, p3: seq<byte>, p4: seq<byte>,
                                      rest: seq<byte>, at1: nat, at3: nat, at4: nat)
    requires at1 == |p0| && at3 == at1 + |p1| + |p2| && at4 == at3 + |p3|
    ensures var x := p0 + (p1 + p2 + p3 + p4 + rest);
      Contains(x, at1, p1) && Contains(x, at3, p3) && Contains(x, at4, p4)
  {
    var x := p0 + (p1 + p2 + p3 + p4 + rest);
    assert x[at1..at1 + |p1|] == p1;
    assert x[at3..at3 + |p3|] == p3;
    assert x[at4..at4 + |p4|] == p4;
  }

  /** Where the last of four nested parts lies. */
  lemma {:induction false} LastPart(p0: seq<byte>, p1: seq<byte>, p2: seq<byte>, p3: seq<byte>, at: nat)
    requires at == |p0| + |p1| + |p2|
    ensures Contains(p0 + (p1 + (p2 + p3)), at, p3)
  {
    var x := p0 + (p1 + (p2 + p3));
    assert x[at..at + |p3|] == p3;
  }

  /** What `serialize_unsized` appends to `before` lies as `BlockLaidOut` says, whatever is written after it. */
  lemma {:induction false} BlockBytesLaidOut(w: Width, before: seq<byte>, b: Block, rest: seq<byte>)
    requires |before| + BlockLen(w, |before|, b) <= MaxValue(w)
    ensures BlockLaidOut(w, before + (BlockBytes(w, |before|, b) + rest), |before|, BlockPos(w, |before|, b), b)
  {
    var start, pos := |before|, BlockPos(w, |before|, b);
    BlockParts(before, b.head, Zeros(PadLen(start + |b.head|, BlockAlign(w))),
      StrFootprint(w, pos, start, b.head), EncodeI32s(b.tail), rest, start, pos, pos + ArchivedStrSize(w));
  }

  /** A relative pointer written after a laid-out block and its padding completes `RefLaidOut`. */
  lemma {:induction false} RefAfterBlock(w: Width, bytes: seq<byte>, before: seq<byte>, blk: seq<byte>, pad: seq<byte>, ptr: seq<byte>,
                                         pos: nat, from: nat, b: Block)
    requires |before| <= pos <= from < TWO_64 && from == |before| + |blk| + |pad|
    requires bytes == before + (blk + (pad + ptr)) && BlockLaidOut(w, bytes, |before|, pos, b)
    requires ptr == EncodeRelPtr(w, ResolveUnsized(w, SliceValue(|b.tail|), from, pos))
    ensures RefLaidOut(w, bytes, |before|, pos, from, b)
  {
    LastPart(before, blk, pad, ptr, from);
  }

  /**
   * What `archive_ref` appends to `before` lies as `RefLaidOut` says, with the
   * block at `BlockPos` and the relative pointer at `RefPos`.
   */
  lemma {:induction false} RefBytesLaidOut(w: Width, before: seq<byte>, b: Block)
    requires RefPos(w, |before|, b) + FootprintSize(w, SliceKind) <= MaxValue(w)
    ensures RefLaidOut(w, before + RefBytes(w, |before|, b), |before|, BlockPos(w, |before|, b), RefPos(w, |before|, b), b)
  {
    var start, pos, from := |before|, BlockPos(w, |before|, b), RefPos(w, |before|, b);
    var end := start + BlockLen(w, start, b);
    assert start <= pos <= end <= from;
    var pad := Zeros(from - end);
    var ptr := EncodeRelPtr(w, ResolveUnsized(w, SliceValue(|b.tail|), from, pos));
    BlockBytesLaidOut(w, before, b, pad + ptr);
    RefAfterBlock(w, before + RefBytes(w, start, b), before, BlockBytes(w, start, b), pad, ptr, pos, from, b);
  }

  /**
   * A relative pointer to a slice of `n` elements at `to`, written at `from`,
   * designates that slice.
   */
  lemma {:induction false} FollowWrittenSliceRef(w: Width, bytes: seq<byte>, from: nat, to: nat, n: nat)
    requires from + FootprintSize(w, SliceKind) <= MaxValue(w) && to <= from
    requires n < TWO_32
    requires Contains(bytes, from, EncodeRelPtr(w, ResolveUnsized(w, SliceValue(n), from, to)))
    ensures ArchivedUnsizedValue(w, 0, bytes, from, SliceKind) == TypedPtr(to, Len(n), Const)
  {
    var a := MakeAugment(SliceValue(n));
    assert a == SliceLen(n) && KindOf(a) == SliceKind;
    var image := EncodeRelPtr(w, ResolveUnsized(w, SliceValue(n), from, to));
    SliceOfSlice(bytes, from, from + |image|, 0, FieldsSize(w, SliceKind));
    assert image[..FieldsSize(w, SliceKind)] == image[0..FieldsSize(w, SliceKind)];
    ArchivedUnsizedValueOfNew(w, 0, bytes, from, to, a);
  }

  /**
   * `archived_unsized_value` at the position of a relative pointer that
   * `archive_ref` wrote designates the block, with its tail length as metadata.
   */
  lemma {:induction false} ArchivedRefDesignatesBlock(w: Width, bytes: seq<byte>, start: nat, pos: nat, from: nat, b: Block)
    requires start <= pos <= from && from + FootprintSize(w, SliceKind) <= MaxValue(w)
    requires RefLaidOut(w, bytes, start, pos, from, b) && |b.tail| < TWO_32
    ensures ArchivedUnsizedValue(w, 0, bytes, from, SliceKind) == TypedPtr(pos, Len(|b.tail|), Const)
  {
    FollowWrittenSliceRef(w, bytes, from, pos, |b.tail|);
  }

  /**
   * Reading the block through `archived_unsized_value` at the position of the
   * relative pointer gives back the block.
   */
  lemma {:induction false} ArchivedRefReadsBack(w: Width, bytes: seq<byte>, start: nat, pos: nat, from: nat, b: Block)
    requires start <= pos && pos + ArchivedStrSize(w) + 4 * |b.tail| <= from
    requires from + FootprintSize(w, SliceKind) <= MaxValue(w) && |bytes| < TWO_64
    requires RefLaidOut(w, bytes, start, pos, from, b) && |b.head| < TWO_32 && |b.tail| < TWO_32
    ensures ReadBlock(w, bytes, ArchivedUnsizedValue(w, 0, bytes, from, SliceKind)) == Some(b)
  {
    ArchivedRefDesignatesBlock(w, bytes, start, pos, from, b);
    ReadLaidOutBlock(w, bytes, start, pos, b);
  }

  /** A block whose parts lie as `BlockLaidOut` says reads back at its position. */
  lemma {:induction false} ReadLaidOutBlock(w: Width, bytes: seq<byte>, start: nat, pos: nat, b: Block)
    requires start <= pos && pos + ArchivedStrSize(w) <= MaxValue(w) && |bytes| < TWO_64
    requires BlockLaidOut(w, bytes, start, pos, b) && |b.head| < TWO_32
    ensures ReadBlock(w, bytes, TypedPtr(pos, Len(|b.tail|), Const)) == Some(b)
  {
    ReadStrAt(w, bytes, start, pos, b.head);
    ReadBlockTail(w, bytes, pos, b.tail);
    ReadBlockOfValues(w, bytes, pos, b);
  }

  /** The tail's elements, straight after the head's archived string, read back. */
  lemma {:induction false} ReadBlockTail(w: Width, bytes: seq<byte>, pos: nat, tail: seq<i32>)
    requires Contains(bytes, pos + ArchivedStrSize(w), EncodeI32s(tail))
    ensures ReadI32s(bytes, pos + ArchivedStrSize(w), |tail|) == tail
  {
    ReadEncodedI32s(bytes, pos + ArchivedStrSize(w), tail);
  }

  /** A block whose head and tail read back at `pos` reads back as a whole. */
  lemma {:induction false} ReadBlockOfValues(w: Width, bytes: seq<byte>, pos: nat, b: Block)
    requires pos + ArchivedStrSize(w) + 4 * |b.tail| <= |bytes| < TWO_64
    requires ReadStr(w, bytes, pos) == Some(b.head)
    requires ReadI32s(bytes, pos + ArchivedStrSize(w), |b.tail|) == b.tail
    ensures ReadBlock(w, bytes, TypedPtr(pos, Len(|b.tail|), Const)) == Some(b)
  {
  }

  /**
   * The `Block` doc example: archive `Block { head: "Numbers 1-4", tail: [1, 2, 3, 4] }`
   * by reference and read it back through `archived_unsized_value`.
   */
  method ArchiveBlockExample() returns (view: Option<Block>, tailLen: nat)
    ensures view == Some(Block(Ascii("Numbers 1-4"), [1, 2, 3, 4]))
    ensures tailLen == 4
  {
    var s := new Serializer(W32, MaxValue(W32));
    var value := Block(Ascii("Numbers 1-4"), [1, 2, 3, 4]);
    var r := ArchiveRefBlock(s, value);
    assert r.Ok?;
    RefBytesLaidOut(W32, [], value);
    ArchivedRefDesignatesBlock(W32, s.buf, 0, BlockPos(W32, 0, value), r.value, value);
    ArchivedRefReadsBack(W32, s.buf, 0, BlockPos(W32, 0, value), r.value, value);
    var archivedRef := ArchivedUnsizedValue(W32, 0, s.buf, r.value, SliceKind);
    view := ReadBlock(W32, s.buf, archivedRef);
    tailLen := LenOf(archivedRef);
  }
}

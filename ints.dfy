/**
 * Fixed-width integers as the archive format stores them: the relative-pointer
 * offset type (`i32`, or `i64` with the `long_rel_ptrs` feature), the Rust `as`
 * narrowing casts between signed widths (two's complement wrap-around), and the
 * little-endian byte images of signed and `u32` values.
 */
module Ints {

  /** An octet of the archive buffer. */
  type byte = b: int | 0 <= b < 256

  const TWO_32: int := 0x1_0000_0000
  const TWO_64: int := 0x1_0000_0000_0000_0000

  type u32 = n: int | 0 <= n < TWO_32
  type usize = n: int | 0 <= n < TWO_64
  type i32 = x: int | -0x8000_0000 <= x <= 0x7fff_ffff

  /** A signed integer width: `W32` is `i32`, `W64` is `i64` (and `isize` on a 64-bit target). */
  datatype Width = W32 | W64

  function Bytes(w: Width): nat {
    match w
    case W32 => 4
    case W64 => 8
  }

  function Modulus(w: Width): int {
    match w
    case W32 => TWO_32
    case W64 => TWO_64
  }

  function MinValue(w: Width): int {
    match w
    case W32 => -0x8000_0000
    case W64 => -0x8000_0000_0000_0000
  }

  function MaxValue(w: Width): int {
    match w
    case W32 => 0x7fff_ffff
    case W64 => 0x7fff_ffff_ffff_ffff
  }

  /** `x` is representable in the signed type of width `w`. */
  predicate Fits(w: Width, x: int) {
    MinValue(w) <= x <= MaxValue(w)
  }

  /** `x` and `y` have the same two's complement bit pattern in width `w`. */
  predicate Congruent(w: Width, x: int, y: int) {
    match w
    case W32 => (x - y) % TWO_32 == 0
    case W64 => (x - y) % TWO_64 == 0
  }

  /** How far `x` lies outside the range of width `w`; zero inside it. */
  function Excess(w: Width, x: int): nat {
    if x < MinValue(w) then MinValue(w) - x else if x > MaxValue(w) then x - MaxValue(w) else 0
  }

  /**
   * Rust's `x as iN`: keep the low bits of `x` and read them as a signed value,
   * that is, shift `x` by whole moduli until it is representable. A value that
   * already fits comes back unchanged.
   */
  function Wrap(w: Width, x: int): (r: int)
    ensures Fits(w, r)
    ensures Fits(w, x) ==> r == x
    decreases Excess(w, x)
  {
    if x < MinValue(w) then Wrap(w, x + Modulus(w))
    else if x > MaxValue(w) then Wrap(w, x - Modulus(w))
    else x
  }

  /** Wrapping keeps the bit pattern. */
  lemma {:induction false} WrapCongruent(w: Width, x: int)
    ensures Congruent(w, x, Wrap(w, x))
    decreases Excess(w, x)
  {
    if x < MinValue(w) {
      WrapCongruent(w, x + Modulus(w));
      ModulusCongruent(w, x);
      CongruentTrans(w, x, x + Modulus(w), Wrap(w, x));
    } else if x > MaxValue(w) {
      WrapCongruent(w, x - Modulus(w));
      ModulusCongruent(w, x - Modulus(w));
      CongruentSymm(w, x - Modulus(w), x);
      CongruentTrans(w, x, x - Modulus(w), Wrap(w, x));
    }
  }

  lemma {:induction false} ModulusCongruent(w: Width, x: int)
    ensures Congruent(w, x, x + Modulus(w))
  {
  }

  /** The representable value with the bit pattern of `x` is `Wrap(w, x)`. */
  lemma {:induction false} WrapUnique(w: Width, x: int, r: int)
    requires Fits(w, r) && Congruent(w, x, r)
    ensures Wrap(w, x) == r
  {
    WrapCongruent(w, x);
    CongruentSymm(w, x, Wrap(w, x));
    CongruentTrans(w, Wrap(w, x), x, r);
    CongruentFitsEqual(w, Wrap(w, x), r);
  }

  lemma {:induction false} CongruentSymm(w: Width, x: int, y: int)
    requires Congruent(w, x, y)
    ensures Congruent(w, y, x)
  {
    var m := Modulus(w);
    var a := (x - y) / m;
    assert y - x == m * -a;
  }

  lemma {:induction false} CongruentTrans(w: Width, x: int, y: int, z: int)
    requires Congruent(w, x, y) && Congruent(w, y, z)
    ensures Congruent(w, x, z)
  {
    var m := Modulus(w);
    var a, b := (x - y) / m, (y - z) / m;
    assert x - z == m * (a + b);
  }

  /** Subtraction respects two's complement agreement. */
  lemma {:induction false} CongruentSub(w: Width, a: int, a': int, b: int, b': int)
    requires Congruent(w, a, a') && Congruent(w, b, b')
    ensures Congruent(w, a - b, a' - b')
  {
    var m := Modulus(w);
    var p, q := (a - a') / m, (b - b') / m;
    assert (a - b) - (a' - b') == m * (p - q);
  }

  /** Two representable values with the same bit pattern are equal. */
  lemma {:induction false} CongruentFitsEqual(w: Width, x: int, y: int)
    requires Fits(w, x) && Fits(w, y) && Congruent(w, x, y)
    ensures x == y
  {
  }

  /** Agreement on the low 64 bits implies agreement on the low 32 bits. */
  lemma {:induction false} CongruentNarrows(x: int, y: int)
    requires Congruent(W64, x, y)
    ensures Congruent(W32, x, y)
  {
    var q := (x - y) / TWO_64;
    assert x - y == TWO_32 * (TWO_32 * q);
  }

  function Pow256(k: nat): (r: nat)
    ensures r > 0
  {
    if k == 0 then 1 else 256 * Pow256(k - 1)
  }

  lemma {:induction false} Pow256Widths()
    ensures Pow256(4) == TWO_32
    ensures Pow256(8) == TWO_64
  {
  }

  /** The `k`-byte little-endian image of `n`. */
  function LeEncode(n: nat, k: nat): (r: seq<byte>)
    requires n < Pow256(k)
    ensures |r| == k
  {
    if k == 0 then [] else [(n % 256) as byte] + LeEncode(n / 256, k - 1)
  }

  /** The unsigned value of a little-endian byte string. */
  function LeDecode(bs: seq<byte>): (r: nat)
    ensures r < Pow256(|bs|)
  {
    if bs == [] then 0 else bs[0] + 256 * LeDecode(bs[1..])
  }

  lemma {:induction false} LeDecodeEncode(n: nat, k: nat)
    requires n < Pow256(k)
    ensures LeDecode(LeEncode(n, k)) == n
  {
    if k > 0 {
      assert Pow256(k) == 256 * Pow256(k - 1);
      assert n / 256 < Pow256(k - 1);
      LeDecodeEncode(n / 256, k - 1);
      var r := LeEncode(n, k);
      assert r[1..] == LeEncode(n / 256, k - 1);
    }
  }

  lemma {:induction false} LeEncodeDecode(bs: seq<byte>)
    ensures LeEncode(LeDecode(bs), |bs|) == bs
  {
    if bs != [] {
      LeEncodeDecode(bs[1..]);
      var n := LeDecode(bs);
      assert n % 256 == bs[0];
      assert n / 256 == LeDecode(bs[1..]);
    }
  }

  /** The native (little-endian) image of a signed value of width `w`. */
  function EncodeSigned(w: Width, x: int): (r: seq<byte>)
    requires Fits(w, x)
    ensures |r| == Bytes(w)
  {
    Pow256Widths();
    LeEncode(if x < 0 then x + Modulus(w) else x, Bytes(w))
  }

  /** Reads a signed value of width `w` from its little-endian image. */
  function DecodeSigned(w: Width, bs: seq<byte>): (r: int)
    requires |bs| == Bytes(w)
    ensures Fits(w, r)
  {
    Pow256Widths();
    var n := LeDecode(bs);
    if n <= MaxValue(w) then n else n - Modulus(w)
  }

  lemma {:induction false} SignedRoundTrip(w: Width, x: int)
    requires Fits(w, x)
    ensures DecodeSigned(w, EncodeSigned(w, x)) == x
  {
    Pow256Widths();
    LeDecodeEncode(if x < 0 then x + Modulus(w) else x, Bytes(w));
  }

  function EncodeU32(n: u32): (r: seq<byte>)
    ensures |r| == 4
  {
    Pow256Widths();
    LeEncode(n, 4)
  }

  function DecodeU32(bs: seq<byte>): (r: u32)
    requires |bs| == 4
  {
    Pow256Widths();
    LeDecode(bs)
  }

  lemma {:induction false} U32RoundTrip(n: u32)
    ensures DecodeU32(EncodeU32(n)) == n
  {
    Pow256Widths();
    LeDecodeEncode(n, 4);
  }

  /** `k` zero bytes (alignment padding). */
  function Zeros(k: nat): (r: seq<byte>)
    ensures |r| == k
  {
    seq(k, _ => 0)
  }
}

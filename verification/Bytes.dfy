/**
 Little-endian integers as byte sequences, and the truncating conversions of
 fixed-width integers.
 */
module Bytes {
  import opened Division

  type Byte = b: int | 0 <= b < 256

  const TWO_32: int := 0x1_0000_0000
  const TWO_64: int := 0x1_0000_0000_0000_0000

  function Pow256(n: nat): (p: int)
    ensures p > 0
  {
    if n == 0 then 1 else 256 * Pow256(n - 1)
  }

  // The n low bytes of v, lowest first.
  function LittleEndian(v: nat, n: nat): (bs: seq<Byte>)
    ensures |bs| == n
  {
    if n == 0 then [] else [v % 256] + LittleEndian(v / 256, n - 1)
  }

  function FromLittleEndian(bs: seq<Byte>): nat {
    if bs == [] then 0 else bs[0] + 256 * FromLittleEndian(bs[1..])
  }

  lemma {:induction false} LittleEndianRoundTrip(v: nat, n: nat)
    requires v < Pow256(n)
    ensures FromLittleEndian(LittleEndian(v, n)) == v
  {
    if n > 0 {
      LittleEndianRoundTrip(v / 256, n - 1);
      assert LittleEndian(v, n)[1..] == LittleEndian(v / 256, n - 1);
    }
  }

  lemma SplitDigit(v: int, p: int)
    requires p > 0
    ensures (v % (256 * p)) % 256 == v % 256 && (v % (256 * p)) / 256 == (v / 256) % p
    ensures v / (256 * p) == v / 256 / p
  {
    var q, r := v / 256, v % 256;
    var q', r' := q / p, q % p;
    assert q' * (256 * p) == 256 * (q' * p);
    DivModIs(v, 256 * p, q', 256 * r' + r);
    DivModIs(256 * r' + r, 256, r', r);
  }

  // The i-th byte is the i-th digit to base 256, of a negative number too.
  lemma {:induction false} LittleEndianAt(v: int, n: nat, i: nat)
    requires i < n
    ensures LittleEndian(v % Pow256(n), n)[i] == v / Pow256(i) % 256
    decreases n
  {
    SplitDigit(v, Pow256(n - 1));
    if i > 0 {
      SplitDigit(v, Pow256(i - 1));
      LittleEndianAt(v / 256, n - 1, i - 1);
    }
  }

  lemma Pow256Values()
    ensures Pow256(4) == TWO_32 && Pow256(8) == TWO_64
  {
    assert Pow256(2) == 0x1_0000;
    assert Pow256(4) == TWO_32;
    assert Pow256(6) == 0x1_0000_0000_0000;
  }

  // Two's complement reading of an unsigned value below 2 * half.
  function Signed(u: int, half: int): int {
    if u < half then u else u - 2 * half
  }

  // The int32 conversion of a length.
  function ToInt32(n: int): int {
    Signed(n % TWO_32, TWO_32 / 2)
  }

  // Integer division rounding towards zero.
  function TruncDiv(a: int, b: int): int
    requires b > 0
  {
    if a >= 0 then a / b else -((-a) / b)
  }

  function EncodeInt64(v: int): (bs: seq<Byte>)
    ensures |bs| == 8
  {
    LittleEndian(v % TWO_64, 8)
  }

  function DecodeInt64(bs: seq<Byte>): int {
    Signed(FromLittleEndian(bs), TWO_64 / 2)
  }

  function EncodeInt32(v: int): (bs: seq<Byte>)
    ensures |bs| == 4
  {
    LittleEndian(v % TWO_32, 4)
  }

  function DecodeInt32(bs: seq<Byte>): int {
    Signed(FromLittleEndian(bs), TWO_32 / 2)
  }

  lemma Int64RoundTrip(v: int)
    requires -TWO_64 / 2 <= v < TWO_64 / 2
    ensures DecodeInt64(EncodeInt64(v)) == v
  {
    assert v % TWO_64 == if v >= 0 then v else v + TWO_64;
    Pow256Values();
    LittleEndianRoundTrip(v % TWO_64, 8);
  }

  lemma EncodedAt(v: int, i: nat)
    ensures i < 8 ==> EncodeInt64(v)[i] == v / Pow256(i) % 256
    ensures i < 4 ==> EncodeInt32(v)[i] == v / Pow256(i) % 256
  {
    Pow256Values();
    if i < 8 {
      LittleEndianAt(v, 8, i);
    }
    if i < 4 {
      LittleEndianAt(v, 4, i);
    }
  }

  lemma Int32RoundTrip(v: int)
    requires -TWO_32 / 2 <= v < TWO_32 / 2
    ensures DecodeInt32(EncodeInt32(v)) == v
  {
    assert v % TWO_32 == if v >= 0 then v else v + TWO_32;
    Pow256Values();
    LittleEndianRoundTrip(v % TWO_32, 4);
  }
}

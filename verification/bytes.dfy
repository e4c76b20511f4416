/**
 * Fixed-width unsigned and two's-complement integers as byte sequences, in either byte order.
 * Every multi-byte value the library stores (pointers, 16/32/64-bit integers) goes through
 * these encoders.
 */
module Bytes {

  /** An octet of memory. */
  newtype byte = b: int | 0 <= b < 256

  /** The two byte orders a platform can have (the addon's "LE"/"BE" endianness tag). */
  datatype Endianness = LE | BE

  function Opposite(e: Endianness): (o: Endianness)
    ensures o != e
  {
    if e == LE then BE else LE
  }

  const TWO_32: nat := 0x1_0000_0000
  const TWO_63: nat := 0x8000_0000_0000_0000
  const TWO_64: nat := 0x1_0000_0000_0000_0000

  /** 256^n: the number of distinct values of an n-byte unsigned integer. */
  function Pow256(n: nat): (r: nat)
    ensures r >= 1
    ensures n >= 1 ==> r >= 256
  {
    if n == 0 then 1 else 256 * Pow256(n - 1)
  }

  lemma Pow256Eight()
    ensures Pow256(8) == TWO_64
  {
    assert Pow256(1) == 256;
    assert Pow256(2) == 0x1_0000;
    assert Pow256(3) == 0x100_0000;
    assert Pow256(4) == TWO_32;
    assert Pow256(5) == 0x100_0000_0000;
    assert Pow256(6) == 0x1_0000_0000_0000;
    assert Pow256(7) == 0x100_0000_0000_0000;
  }

  /** JavaScript's ToUint32 on an integral Number: reduction modulo 2^32. */
  function ToUint32(x: int): (r: nat)
    ensures r < TWO_32
    ensures 0 <= x < TWO_32 ==> r == x
  {
    x % TWO_32
  }

  /** The element order reversed. */
  function Reverse<T>(s: seq<T>): (r: seq<T>)
    ensures |r| == |s|
    ensures forall i :: 0 <= i < |s| ==> r[i] == s[|s| - 1 - i]
  {
    if s == [] then [] else Reverse(s[1..]) + [s[0]]
  }

  lemma ReverseReverse<T>(s: seq<T>)
    ensures Reverse(Reverse(s)) == s
  {
  }

  /** The unsigned value of a little-endian byte sequence. */
  function FromLE(bs: seq<byte>): (v: nat)
    ensures v < Pow256(|bs|)
  {
    if bs == [] then 0 else bs[0] as nat + 256 * FromLE(bs[1..])
  }

  /** The n low-order bytes of v, least significant first. */
  function ToLE(v: nat, n: nat): (bs: seq<byte>)
    ensures |bs| == n
  {
    if n == 0 then [] else [(v % 256) as byte] + ToLE(v / 256, n - 1)
  }

  lemma {:induction false} FromToLE(v: nat, n: nat)
    requires v < Pow256(n)
    ensures FromLE(ToLE(v, n)) == v
  {
    if n > 0 {
      var q, r := v / 256, v % 256;
      assert v == 256 * q + r;
      assert q < Pow256(n - 1);
      FromToLE(q, n - 1);
      var bs := ToLE(v, n);
      assert bs == [r as byte] + ToLE(q, n - 1);
      assert bs[1..] == ToLE(q, n - 1);
      assert bs[0] as nat == r;
    }
  }

  lemma {:induction false} ToFromLE(bs: seq<byte>)
    ensures ToLE(FromLE(bs), |bs|) == bs
  {
    if bs != [] {
      var v, b, rest := FromLE(bs), bs[0] as nat, FromLE(bs[1..]);
      assert v == b + 256 * rest;
      assert b < 256;
      assert v % 256 == b && v / 256 == rest;
      ToFromLE(bs[1..]);
      assert ToLE(v, |bs|) == [b as byte] + ToLE(rest, |bs| - 1);
      assert bs == [bs[0]] + bs[1..];
    }
  }

  /** The unsigned value of bs read in byte order e. */
  function Decode(e: Endianness, bs: seq<byte>): (v: nat)
    ensures v < Pow256(|bs|)
  {
    if e == LE then FromLE(bs) else FromLE(Reverse(bs))
  }

  /** The n low-order bytes of v laid out in byte order e. */
  function Encode(e: Endianness, v: nat, n: nat): (bs: seq<byte>)
    ensures |bs| == n
  {
    if e == LE then ToLE(v, n) else Reverse(ToLE(v, n))
  }

  /** Decoding inverts encoding for every value that fits the width. */
  lemma DecodeEncode(e: Endianness, v: nat, n: nat)
    requires v < Pow256(n)
    ensures Decode(e, Encode(e, v, n)) == v
  {
    FromToLE(v, n);
    if e == BE {
      ReverseReverse(ToLE(v, n));
    }
  }

  /** Encoding inverts decoding: a byte sequence is the encoding of its own value. */
  lemma EncodeDecode(e: Endianness, bs: seq<byte>)
    ensures Encode(e, Decode(e, bs), |bs|) == bs
  {
    if e == LE {
      ToFromLE(bs);
    } else {
      ToFromLE(Reverse(bs));
      ReverseReverse(bs);
    }
  }

  /** The bytes of a value in one order, reversed, are its bytes in the other order. */
  lemma EncodeReversed(e: Endianness, v: nat, n: nat)
    ensures Reverse(Encode(e, v, n)) == Encode(Opposite(e), v, n)
  {
    ReverseReverse(ToLE(v, n));
  }

  /**
   * Reading the byte-reversed sequence in one byte order is reading the original sequence
   * in the other order: the fact the opposite-endian Int64 accessors rely on.
   */
  lemma DecodeReversed(e: Endianness, bs: seq<byte>)
    ensures Decode(e, Reverse(bs)) == Decode(Opposite(e), bs)
  {
    ReverseReverse(bs);
  }

  /** Half the range of an n-byte integer: the smallest value whose sign bit is set. */
  function SignBit(n: nat): (h: int)
    requires n >= 1
    ensures h >= 128 && Pow256(n) == 2 * h
  {
    128 * Pow256(n - 1)
  }

  /** The two's-complement reading of an n-byte unsigned value. */
  function ToSigned(u: nat, n: nat): (v: int)
    requires n >= 1 && u < Pow256(n)
    ensures -SignBit(n) <= v < SignBit(n)
  {
    if u >= SignBit(n) then u - Pow256(n) else u
  }

  /** The n-byte two's-complement bit pattern of v (reduction modulo 256^n). */
  function ToUnsigned(v: int, n: nat): (u: nat)
    ensures u < Pow256(n)
  {
    v % Pow256(n)
  }

  lemma SignedRoundTrip(v: int, n: nat)
    requires n >= 1 && -SignBit(n) <= v < SignBit(n)
    ensures ToSigned(ToUnsigned(v, n), n) == v
  {
    var p, h := Pow256(n), SignBit(n);
    if v < 0 {
      ModShift(v, p);
      assert ToUnsigned(v, n) == v + p;
    } else {
      ModSmall(v, p);
    }
  }

  /** Reading a bit pattern as signed and converting back gives the same bit pattern. */
  lemma UnsignedRoundTrip(u: nat, n: nat)
    requires n >= 1 && u < Pow256(n)
    ensures ToUnsigned(ToSigned(u, n), n) == u
  {
    var p := Pow256(n);
    if u >= SignBit(n) {
      ModShift(u - p, p);
    } else {
      ModSmall(u, p);
    }
  }

  /** An int64 has 8 bytes and its sign bit is 2^63. */
  lemma SignBitEight()
    ensures Pow256(8) == TWO_64 && SignBit(8) == TWO_63
  {
    Pow256Eight();
  }

  lemma ModSmall(v: int, p: nat)
    requires 0 <= v < p
    ensures v % p == v
  {
  }

  lemma ModShift(v: int, p: int)
    requires p > 0 && -p <= v < 0
    ensures v % p == v + p
  {
    var r := v % p;
    var q := v / p;
    assert v == q * p + r && 0 <= r < p;
    MulBounds(q, p);
  }

  lemma MulBounds(q: int, p: int)
    requires p > 0
    ensures q >= 0 ==> q * p >= 0
    ensures q <= -2 ==> q * p <= -2 * p
    ensures q == -1 ==> q * p == -p
  {
  }
}

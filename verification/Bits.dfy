/** Bytes, bits, and the two groupings between them.

    A `bit` is a `bool` (true is 1); a byte is eight bits, least significant first, which is the order
    in which AX.25 v2.2 (section 3.8) puts a byte on the line.  Streams are consumed one element at a
    time, so the recursive functions of this project peel the LAST element of their sequence. */
module Bits {
  type bit = bool
  type byte = bv8

  datatype Option<+T> = None | Some(value: T)

  function Front<T>(s: seq<T>): seq<T>
    requires s != []
  {
    s[..|s| - 1]
  }

  function Last<T>(s: seq<T>): T
    requires s != []
  {
    s[|s| - 1]
  }

  lemma Assoc<T>(a: seq<T>, b: seq<T>, c: seq<T>)
    ensures (a + b) + c == a + (b + c)
  {
  }

  lemma Cut<T>(a: seq<T>, b: seq<T>)
    ensures (a + b)[..|a|] == a && (a + b)[|a|..] == b
  {
  }

  lemma FrontLast<T>(a: seq<T>)
    requires a != []
    ensures Front(a) + [Last(a)] == a
  {
  }

  lemma FrontOfConcat<T>(a: seq<T>, b: seq<T>)
    requires b != []
    ensures a + b != [] && Front(a + b) == a + Front(b) && Last(a + b) == Last(b)
  {
  }

  function Half(b: byte): byte {
    b >> 1
  }

  function Odd(b: byte): bit {
    b & 1 == 1
  }

  /** `b` shifted right `j` places, one place at a time. */
  function Drop(b: byte, j: nat): byte {
    if j == 0 then b else Half(Drop(b, j - 1))
  }

  /** Bit number `j` of a byte; bit 0 is the least significant. */
  function BitOf(b: byte, j: nat): bit {
    Odd(Drop(b, j))
  }

  function ByteBits(b: byte): (r: seq<bit>)
    ensures |r| == 8
  {
    seq(8, j requires 0 <= j < 8 => BitOf(b, j))
  }

  function Unit(b: bit): byte {
    if b then 1 else 0
  }

  function ByteOf(s: seq<bit>): byte
    requires |s| == 8
  {
    Unit(s[0]) | (Unit(s[1]) << 1) | (Unit(s[2]) << 2) | (Unit(s[3]) << 3)
    | (Unit(s[4]) << 4) | (Unit(s[5]) << 5) | (Unit(s[6]) << 6) | (Unit(s[7]) << 7)
  }

  lemma DropIsShift(b: byte)
    ensures Drop(b, 1) == b >> 1 && Drop(b, 2) == b >> 2 && Drop(b, 3) == b >> 3 && Drop(b, 4) == b >> 4
    ensures Drop(b, 5) == b >> 5 && Drop(b, 6) == b >> 6 && Drop(b, 7) == b >> 7 && Drop(b, 8) == 0
  {
    assert Drop(b, 1) == b >> 1;
    assert Drop(b, 2) == Half(Drop(b, 1));
    assert Drop(b, 3) == Half(Drop(b, 2));
    assert Drop(b, 4) == Half(Drop(b, 3));
    assert Drop(b, 5) == Half(Drop(b, 4));
    assert Drop(b, 6) == Half(Drop(b, 5));
    assert Drop(b, 7) == Half(Drop(b, 6));
    assert Drop(b, 8) == Half(Drop(b, 7));
  }

  lemma ByteOfByteBits(b: byte)
    ensures ByteOf(ByteBits(b)) == b
  {
    DropIsShift(b);
  }

  lemma ByteBitsOfByteOf(s: seq<bit>)
    requires |s| == 8
    ensures ByteBits(ByteOf(s)) == s
  {
    DropIsShift(ByteOf(s));
  }

  /** All bits of a byte string, in line order. */
  function BytesBits(bs: seq<byte>): (r: seq<bit>)
    ensures |r| == 8 * |bs|
  {
    if bs == [] then [] else BytesBits(Front(bs)) + ByteBits(Last(bs))
  }

  lemma {:induction false} BytesBitsConcat(a: seq<byte>, b: seq<byte>)
    ensures BytesBits(a + b) == BytesBits(a) + BytesBits(b)
  {
    if b == [] {
      assert a + b == a;
    } else {
      BytesBitsConcat(a, Front(b));
      FrontOfConcat(a, b);
      Assoc(BytesBits(a), BytesBits(Front(b)), ByteBits(Last(b)));
    }
  }

  /** The whole bytes of a bit string; up to seven bits at the end are left over. */
  function BytesOf(d: seq<bit>): (r: seq<byte>)
    ensures |r| == |d| / 8
    decreases |d|
  {
    if |d| < 8 then []
    else if |d| % 8 != 0 then BytesOf(Front(d))
    else BytesOf(d[..|d| - 8]) + [ByteOf(d[|d| - 8..])]
  }

  lemma BytesOfAppendByte(d: seq<bit>, z: seq<bit>)
    requires |d| % 8 == 0 && |z| == 8
    ensures BytesOf(d + z) == BytesOf(d) + [ByteOf(z)]
  {
    Cut(d, z);
  }

  lemma {:induction false} BytesOfBytesBits(bs: seq<byte>)
    ensures BytesOf(BytesBits(bs)) == bs
  {
    if bs == [] {
    } else {
      BytesOfBytesBits(Front(bs));
      BytesOfAppendByte(BytesBits(Front(bs)), ByteBits(Last(bs)));
      ByteOfByteBits(Last(bs));
      FrontLast(bs);
    }
  }

  lemma FrontWhole(d: seq<bit>, q: nat, r: nat)
    requires |d| == 8 * q + r && 0 < r < 8
    ensures |Front(d)| - |Front(d)| % 8 == 8 * q && Front(d)[..8 * q] == d[..8 * q]
  {
  }

  lemma {:induction false} BytesOfPartial(d: seq<bit>)
    ensures BytesOf(d) == BytesOf(d[..|d| - |d| % 8])
    decreases |d|
  {
    if |d| % 8 != 0 {
      BytesOfPartial(Front(d));
      FrontWhole(d, |d| / 8, |d| % 8);
    } else {
      assert d[..|d|] == d;
    }
  }

  lemma BytesOfSnocPartial(d: seq<bit>, b: bit)
    requires |d| % 8 != 7
    ensures BytesOf(d + [b]) == BytesOf(d)
  {
    assert Front(d + [b]) == d;
  }

  lemma BytesOfSnocFull(d: seq<bit>, b: bit)
    requires |d| % 8 == 7
    ensures BytesOf(d + [b]) == BytesOf(d) + [ByteOf(d[|d| - 7..] + [b])]
  {
    BytesOfPartial(d);
    BytesOfAppendByte(d[..|d| - 7], d[|d| - 7..] + [b]);
    assert d + [b] == d[..|d| - 7] + (d[|d| - 7..] + [b]);
  }
}

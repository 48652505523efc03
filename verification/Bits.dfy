/** Bytes as bits, least significant first, section 3.1.1 of RFC 1951. */
module Bits {
  import opened Basics

  function BitsOfByte(c: byte): (r: seq<bool>)
    ensures |r| == 8
  {
    [c & 1 != 0, c & 2 != 0, c & 4 != 0, c & 8 != 0, c & 16 != 0, c & 32 != 0, c & 64 != 0, c & 128 != 0]
  }

  function Weight(x: bool, v: byte): byte { if x then v else 0 }

  function Join(x0: bool, x1: bool, x2: bool, x3: bool, x4: bool, x5: bool, x6: bool, x7: bool): byte {
    Weight(x0, 1) | Weight(x1, 2) | Weight(x2, 4) | Weight(x3, 8) |
    Weight(x4, 16) | Weight(x5, 32) | Weight(x6, 64) | Weight(x7, 128)
  }

  lemma JoinBits(x0: bool, x1: bool, x2: bool, x3: bool, x4: bool, x5: bool, x6: bool, x7: bool)
    ensures var c := Join(x0, x1, x2, x3, x4, x5, x6, x7);
      && (c & 1 != 0 <==> x0) && (c & 2 != 0 <==> x1) && (c & 4 != 0 <==> x2) && (c & 8 != 0 <==> x3)
      && (c & 16 != 0 <==> x4) && (c & 32 != 0 <==> x5) && (c & 64 != 0 <==> x6) && (c & 128 != 0 <==> x7)
  {
  }

  function ByteOfBits(r: seq<bool>): byte
    requires |r| == 8
  {
    Join(r[0], r[1], r[2], r[3], r[4], r[5], r[6], r[7])
  }

  lemma ByteRoundTrip(r: seq<bool>)
    requires |r| == 8
    ensures BitsOfByte(ByteOfBits(r)) == r
  {
    hide Join;
    JoinBits(r[0], r[1], r[2], r[3], r[4], r[5], r[6], r[7]);
  }

  function BitsOf(bytes: seq<byte>): (r: seq<bool>)
    ensures |r| == 8 * |bytes|
  {
    if bytes == [] then [] else BitsOf(bytes[..|bytes| - 1]) + BitsOfByte(bytes[|bytes| - 1])
  }

  lemma {:induction false} BitsOfAppend(a: seq<byte>, b: seq<byte>)
    ensures BitsOf(a + b) == BitsOf(a) + BitsOf(b)
  {
    hide BitsOfByte;
    if b == [] {
      assert a + b == a;
    } else {
      BitsOfAppend(a, b[..|b| - 1]);
      assert (a + b)[..|a + b| - 1] == a + b[..|b| - 1];
    }
  }

  /** Eight buffered bits and the byte they make are the same bits. */
  lemma ByteCarriesBits(bytes: seq<byte>, bits: seq<bool>)
    requires |bits| >= 8
    ensures BitsOf(bytes + [ByteOfBits(bits[..8])]) + bits[8..] == BitsOf(bytes) + bits
  {
    hide BitsOfByte, ByteOfBits;
    ByteRoundTrip(bits[..8]);
    assert bits == bits[..8] + bits[8..];
    var c := ByteOfBits(bits[..8]);
    assert (bytes + [c])[..|bytes|] == bytes;
  }

  /** Zero bits up to the next byte boundary after position pos. */
  function Padding(pos: nat): (r: seq<bool>)
    ensures (pos + |r|) % 8 == 0 && |r| < 8 && forall i :: 0 <= i < |r| ==> !r[i]
  {
    seq((8 - pos % 8) % 8, _ => false)
  }

  lemma PaddingAfterBytes(n: nat, k: nat)
    ensures Padding(8 * n + k) == Padding(k)
  {
  }

  function Low(n: nat): byte { (n % 256) as bv8 }

  lemma LowValue(n: nat)
    ensures Low(n) as int == n % 256
    ensures Low(n) == 0 <==> n % 256 == 0
  {
    AsByte(n % 256);
    ZeroByte(Low(n));
  }

  lemma AsByte(m: nat)
    requires m < 256
    ensures (m as bv8) as int == m
  {
    assert m % 256 == m;
  }

  lemma ZeroByte(c: byte)
    ensures c == 0 <==> c as int == 0
  {
  }

  /** A 16-bit value, least significant byte first. */
  function Short(n: nat): seq<byte>
    requires n < 0x1_0000
  {
    [Low(n), Low(n / 256)]
  }
}

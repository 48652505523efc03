/** Reading bits and bytes back: numbers, bytes, stored blocks and the empty block, as RFC 1951 says they are read. */
module BitReaders {
  import opened Basics
  import opened Bits
  import opened Blocks

  // ----- Numbers -----

  /** A number from its bits, least significant first: section 3.1.1 of RFC 1951. */
  function Number(bits: seq<bool>): nat {
    if bits == [] then 0 else (if bits[0] then 1 else 0) + 2 * Number(bits[1..])
  }

  /** Least significant byte first, as in RFC 1951 and RFC 1952. */
  function Little(b: seq<byte>): nat {
    if b == [] then 0 else b[0] as int + 256 * Little(b[1..])
  }

  /** Most significant byte first, as in RFC 1950. */
  function Big(b: seq<byte>): nat {
    if b == [] then 0 else 256 * Big(b[..|b| - 1]) + b[|b| - 1] as int
  }

  function Bit(x: bool): nat { if x then 1 else 0 }

  lemma NumberOfEight(b: seq<bool>)
    requires |b| == 8
    ensures Number(b) == Bit(b[0]) + 2 * Bit(b[1]) + 4 * Bit(b[2]) + 8 * Bit(b[3]) + 16 * Bit(b[4]) + 32 * Bit(b[5])
                         + 64 * Bit(b[6]) + 128 * Bit(b[7])
  {
    hide Number;
    NumberFrom(b, 0);
    NumberFrom(b, 1);
    NumberFrom(b, 2);
    NumberFrom(b, 3);
    NumberFrom(b, 4);
    NumberFrom(b, 5);
    NumberFrom(b, 6);
    NumberFrom(b, 7);
  }

  lemma NumberFrom(b: seq<bool>, k: nat)
    requires k < |b|
    ensures Number(b[k..]) == Bit(b[k]) + 2 * Number(b[k + 1..])
    ensures k == 0 ==> b[k..] == b
    ensures k + 1 == |b| ==> Number(b[k + 1..]) == 0
  {
    assert b[k..][1..] == b[k + 1..];
  }

  lemma ByteIsWeights(c: byte)
    ensures c as int == Bit(c & 1 != 0) + 2 * Bit(c & 2 != 0) + 4 * Bit(c & 4 != 0) + 8 * Bit(c & 8 != 0)
                        + 16 * Bit(c & 16 != 0) + 32 * Bit(c & 32 != 0) + 64 * Bit(c & 64 != 0)
                        + 128 * Bit(c & 128 != 0)
  {
  }

  /** The bits of a byte are its binary digits, least significant first. */
  lemma NumberOfByte(c: byte)
    ensures Number(BitsOfByte(c)) == c as int
  {
    NumberOfEight(BitsOfByte(c));
    ByteIsWeights(c);
  }

  lemma NumberAppend(a: seq<bool>, b: seq<bool>)
    requires |a| == 8
    ensures Number(a + b) == Number(a) + 256 * Number(b)
  {
    hide Number;
    var all := a + b;
    assert all[8..] == b && forall i :: 0 <= i < 8 ==> all[i] == a[i];
    NumberOfEight(a);
    NumberFrom(all, 0);
    NumberFrom(all, 1);
    NumberFrom(all, 2);
    NumberFrom(all, 3);
    NumberFrom(all, 4);
    NumberFrom(all, 5);
    NumberFrom(all, 6);
    NumberFrom(all, 7);
  }

  lemma BitsOfFirst(c: byte, rest: seq<byte>)
    ensures BitsOf([c] + rest) == BitsOfByte(c) + BitsOf(rest)
  {
    hide BitsOfByte;
    BitsOfAppend([c], rest);
    assert [c][..0] == [] && BitsOf([]) == [];
  }

  /** Bytes sent as bits carry the same numbers. */
  lemma {:induction false} NumberOfBytes(bytes: seq<byte>)
    ensures Number(BitsOf(bytes)) == Little(bytes)
  {
    if bytes != [] {
      var c, rest := bytes[0], bytes[1..];
      assert bytes == [c] + rest;
      hide BitsOf, BitsOfByte;
      BitsOfFirst(c, rest);
      NumberOfBytes(rest);
      NumberOfByte(c);
      NumberAppend(BitsOfByte(c), BitsOf(rest));
    }
  }

  /** The bytes that come as these bits. */
  function BytesOf(bits: seq<bool>): seq<byte> {
    if |bits| < 8 then [] else [(Number(bits[..8]) % 256) as byte] + BytesOf(bits[8..])
  }

  lemma {:induction false} BytesReadBack(bytes: seq<byte>)
    ensures BytesOf(BitsOf(bytes)) == bytes
  {
    if bytes != [] {
      var c, rest := bytes[0], bytes[1..];
      assert bytes == [c] + rest;
      hide BitsOf, BitsOfByte, Number;
      BitsOfFirst(c, rest);
      BytesReadBack(rest);
      NumberOfByte(c);
      var bits := BitsOf(bytes);
      assert bits[..8] == BitsOfByte(c) && bits[8..] == BitsOf(rest);
      assert (c as int) as byte == c;
    }
  }

  lemma SameBits(a: seq<byte>, b: seq<byte>)
    requires BitsOf(a) == BitsOf(b)
    ensures a == b
  {
    BytesReadBack(a);
    BytesReadBack(b);
  }

  // ----- Blocks -----

  /** The next byte boundary. */
  function Boundary(pos: nat): nat { (pos + 7) / 8 * 8 }

  /** A stored block, or the empty block with fixed codes, at bit `pos` of a stream, and where it ends. */
  function ReadBlock(bits: seq<bool>, pos: nat): Option<(Block, nat)> {
    if pos + 3 > |bits| then None
    else
      var last, kind := bits[pos], Number(bits[pos + 1..pos + 3]);
      var at := Boundary(pos + 3);
      if kind == 0 && at + 32 <= |bits| then
        var len, nlen := Number(bits[at..at + 16]), Number(bits[at + 16..at + 32]);
        if len + nlen == 65535 && at + 32 + 8 * len <= |bits|
        then Some((Block.Stored(BytesOf(bits[at + 32..at + 32 + 8 * len]), last), at + 32 + 8 * len))
        else None
      else if kind == 1 && !last && pos + 10 <= |bits| && bits[pos + 3..pos + 10] == seq(7, _ => false)
      then Some((Align, pos + 10))
      else None
  }

  lemma Middle<T>(a: seq<T>, b: seq<T>, c: seq<T>)
    ensures (a + b + c)[|a|..|a| + |b|] == b
  {
  }

  lemma ShortIsTwo(n: nat)
    requires n < 0x1_0000
    ensures 256 * Low(n / 256) as int + Low(n) as int == n
  {
    hide Low;
    var q := n / 256;
    assert 0 <= q < 256;
    LowValue(q);
    LowValue(n);
    SmallRemainder(q);
  }

  lemma SmallRemainder(q: nat)
    requires q < 256
    ensures q % 256 == q
  {
  }

  lemma LittleOfTwo(a: byte, b: byte)
    ensures Little([a, b]) == a as int + 256 * b as int
  {
    var s := [a, b];
    assert s[1..] == [b] && s[1..][1..] == [];
    assert Little(s[1..]) == b as int;
  }

  lemma LittleOfShort(n: nat)
    requires n < 0x1_0000
    ensures Little(Short(n)) == n && |Short(n)| == 2
  {
    hide Low, Little;
    ShortIsTwo(n);
    LittleOfTwo(Low(n), Low(n / 256));
  }

  lemma NumberOfShort(n: nat)
    requires n <= 65535
    ensures Number(BitsOf(Short(n))) == n && |BitsOf(Short(n))| == 16
  {
    hide Number, BitsOf, Short, Little;
    NumberOfBytes(Short(n));
    LittleOfShort(n);
  }

  lemma TypeBits(pos: nat, last: bool, rest: seq<bool>, before: seq<bool>)
    requires pos == |before|
    ensures var bits := before + ([last, false, false] + rest);
      bits[pos] == last && Number(bits[pos + 1..pos + 3]) == 0
  {
    var bits := before + ([last, false, false] + rest);
    assert bits[pos + 1..pos + 3] == [false, false];
    assert [false, false][1..] == [false] && [false][1..] == [];
  }

  lemma PaddingToBoundary(pos: nat)
    ensures pos + |Padding(pos)| == Boundary(pos)
  {
  }

  /** The parts of a stored block, found by their positions. */
  lemma Parts(before: seq<bool>, head: seq<bool>, len: seq<bool>, nlen: seq<bool>, body: seq<bool>, after: seq<bool>)
    ensures var all, at := before + (head + (len + nlen + body)) + after, |before| + |head|;
      && all[at..at + |len|] == len
      && all[at + |len|..at + |len| + |nlen|] == nlen
      && all[at + |len| + |nlen|..at + |len| + |nlen| + |body|] == body
  {
    var all := before + (head + (len + nlen + body)) + after;
    var a, b, c := before + head, before + head + len, before + head + len + nlen;
    assert all == a + len + (nlen + body + after);
    assert all == b + nlen + (body + after);
    assert all == c + body + after;
    Middle(a, len, nlen + body + after);
    Middle(b, nlen, body + after);
    Middle(c, body, after);
  }

  lemma StoredParts(pos: nat, data: seq<byte>, last: bool)
    requires |data| <= MAX_STORED
    ensures StoredBits(pos, data, last) == [last, false, false] + Padding(pos + 3) +
              (BitsOf(Short(|data|)) + BitsOf(Short(MAX_STORED - |data|)) + BitsOf(data))
  {
    hide BitsOf, Padding, Short;
    BitsOfAppend(Short(|data|) + Short(MAX_STORED - |data|), data);
    BitsOfAppend(Short(|data|), Short(MAX_STORED - |data|));
  }

  lemma HeadBits(before: seq<bool>, last: bool, pad: seq<bool>, rest: seq<bool>, after: seq<bool>)
    ensures var bits := before + ([last, false, false] + pad + rest) + after;
      bits[|before|] == last && Number(bits[|before| + 1..|before| + 3]) == 0
  {
    hide Number;
    TypeBits(|before|, last, pad + rest + after, before);
    assert before + ([last, false, false] + pad + rest) + after ==
           before + ([last, false, false] + (pad + rest + after));
  }

  /** A stored block is read back as it was sent, whatever comes before and after it. */
  lemma StoredReadsBack(before: seq<bool>, data: seq<byte>, last: bool, after: seq<bool>)
    requires |data| <= MAX_STORED
    ensures var bits := StoredBits(|before|, data, last);
      ReadBlock(before + bits + after, |before|) == Some((Block.Stored(data, last), |before| + |bits|))
  {
    hide Number, BitsOf, Padding, Short, BytesOf, Boundary, StoredBits;
    var pad := Padding(|before| + 3);
    var len, nlen, body := BitsOf(Short(|data|)), BitsOf(Short(MAX_STORED - |data|)), BitsOf(data);
    NumberOfShort(|data|);
    NumberOfShort(MAX_STORED - |data|);
    BytesReadBack(data);
    PaddingToBoundary(|before| + 3);
    StoredParts(|before|, data, last);
    Parts(before, [last, false, false] + pad, len, nlen, body, after);
    HeadBits(before, last, pad, len + nlen + body, after);
  }

  /** So is the empty block of a partial flush. */
  lemma AlignReadsBack(before: seq<bool>, after: seq<bool>)
    ensures ReadBlock(before + ALIGN_BITS + after, |before|) == Some((Align, |before| + 10))
  {
    var pos, all := |before|, before + ALIGN_BITS + after;
    assert all[pos + 1..pos + 3] == [true, false];
    assert [true, false][1..] == [false] && [false][1..] == [];
    assert all[pos + 3..pos + 10] == seq(7, _ => false);
  }
}

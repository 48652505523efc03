/** The rolling hash of deflate.c: UPDATE_HASH, and what three updates mean. */
module RollingHash {
  import opened Basics
  import opened Lz77

  /** hash_bits is memLevel + 7, with memLevel in 1..9. */
  ghost predicate HashBits(b: nat) { 8 <= b <= 16 }

  /** hash_shift: after MIN_MATCH updates the oldest byte has left the key. */
  function Shift(b: nat): bv32
    requires HashBits(b)
  {
    if b <= 9 then 3 else if b <= 12 then 4 else if b <= 15 then 5 else 6
  }

  lemma ShiftIsCeilThird(b: nat)
    requires HashBits(b)
    ensures Shift(b) as int == (b + MIN_MATCH - 1) / MIN_MATCH
  {
  }

  function Mask(b: nat): bv32
    requires HashBits(b)
  {
    if b == 8 then 0xff else if b == 9 then 0x1ff else if b == 10 then 0x3ff
    else if b == 11 then 0x7ff else if b == 12 then 0xfff else if b == 13 then 0x1fff
    else if b == 14 then 0x3fff else if b == 15 then 0x7fff else 0xffff
  }

  /** hash_mask is hash_size - 1. */
  lemma MaskIsSizeMinusOne(b: nat)
    requires HashBits(b)
    ensures Mask(b) as int == Pow2(b) - 1
  {
    TableSize(b);
    hide Pow2;
  }

  /** hash_size is 2^hash_bits. */
  lemma TableSize(b: nat)
    requires HashBits(b)
    ensures Pow2(b) == if b == 8 then 0x100 else if b == 9 then 0x200 else if b == 10 then 0x400
                       else if b == 11 then 0x800 else if b == 12 then 0x1000 else if b == 13 then 0x2000
                       else if b == 14 then 0x4000 else if b == 15 then 0x8000 else 0x1_0000
  {
    assert Pow2(8) == 0x100;
  }

  function Mix(h: bv32, c: bv32, s: bv32, m: bv32): bv32
    requires s <= 6
  {
    ((h << s) ^ c) & m
  }

  function UpdateHash(b: nat, h: bv32, c: byte): bv32
    requires HashBits(b)
  {
    Mix(h, c as bv32, Shift(b), Mask(b))
  }

  /** The hash of three bytes, computed from scratch. */
  function Hash3(b: nat, x: byte, y: byte, z: byte): bv32
    requires HashBits(b)
  {
    UpdateHash(b, UpdateHash(b, UpdateHash(b, 0, x), y), z)
  }

  lemma Formula3(x: bv32, y: bv32, z: bv32, m: bv32)
    requires m == 0xff || m == 0x1ff
    ensures Mix(Mix(Mix(0, x, 3, m), y, 3, m), z, 3, m) == ((x << 6) ^ (y << 3) ^ z) & m
  {
  }

  lemma Formula4(x: bv32, y: bv32, z: bv32, m: bv32)
    requires m == 0x3ff || m == 0x7ff || m == 0xfff
    ensures Mix(Mix(Mix(0, x, 4, m), y, 4, m), z, 4, m) == ((x << 8) ^ (y << 4) ^ z) & m
  {
  }

  lemma Formula5(x: bv32, y: bv32, z: bv32, m: bv32)
    requires m == 0x1fff || m == 0x3fff || m == 0x7fff
    ensures Mix(Mix(Mix(0, x, 5, m), y, 5, m), z, 5, m) == ((x << 10) ^ (y << 5) ^ z) & m
  {
  }

  lemma Formula6(x: bv32, y: bv32, z: bv32, m: bv32)
    requires m == 0xffff
    ensures Mix(Mix(Mix(0, x, 6, m), y, 6, m), z, 6, m) == ((x << 12) ^ (y << 6) ^ z) & m
  {
  }

  /** The hash of three bytes in one piece: each byte hash_shift bits left of the next, under the mask. */
  lemma HashFormula(b: nat, x: byte, y: byte, z: byte)
    requires HashBits(b)
    ensures Hash3(b, x, y, z) ==
            (((x as bv32) << (2 * Shift(b))) ^ ((y as bv32) << Shift(b)) ^ (z as bv32)) & Mask(b)
  {
    MaskValue(b);
    var x', y', z', m := x as bv32, y as bv32, z as bv32, Mask(b);
    hide Mix;
    match Shift(b) {
      case 3 => Formula3(x', y', z', m);
      case 4 => Formula4(x', y', z', m);
      case 5 => Formula5(x', y', z', m);
      case _ => Formula6(x', y', z', m);
    }
  }

  /** h is a running key that the next byte turns into the hash of x, y and that byte. */
  ghost predicate Primed(b: nat, h: bv32, x: byte, y: byte)
    requires HashBits(b)
  {
    forall z: byte :: UpdateHash(b, h, z) == Hash3(b, x, y, z)
  }

  lemma MaskValue(b: nat)
    requires HashBits(b)
    ensures var m := Mask(b); match Shift(b)
      case 3 => m == 0xff || m == 0x1ff
      case 4 => m == 0x3ff || m == 0x7ff || m == 0xfff
      case 5 => m == 0x1fff || m == 0x3fff || m == 0x7fff
      case _ => Shift(b) == 6 && m == 0xffff
  {
    if b == 8 {} else if b == 9 {} else if b == 10 {} else if b == 11 {} else if b == 12 {}
    else if b == 13 {} else if b == 14 {} else if b == 15 {} else {}
  }

  lemma UpdateIsMasked(b: nat, h: bv32, c: byte)
    requires HashBits(b)
    ensures UpdateHash(b, h, c) <= Mask(b)
  {
  }

  lemma MaskedIsSmall(b: nat, r: bv32)
    requires HashBits(b) && r <= Mask(b)
    ensures r as int < Pow2(b)
  {
    TableSize(b);
    hide Pow2;
  }

  /** The key as a table index. */
  function Index(h: bv32): nat { h as int }

  lemma InRange(b: nat, h: bv32, c: byte)
    requires HashBits(b)
    ensures Index(UpdateHash(b, h, c)) < Pow2(b)
  {
    hide UpdateHash;
    UpdateIsMasked(b, h, c);
    MaskedIsSmall(b, UpdateHash(b, h, c));
  }

  lemma OldestByteShiftsOut(h: bv32, g: bv32, x: bv32, y: bv32, z: bv32, s: bv32, m: bv32)
    requires (s == 3 && (m == 0xff || m == 0x1ff)) ||
             (s == 4 && (m == 0x3ff || m == 0x7ff || m == 0xfff)) ||
             (s == 5 && (m == 0x1fff || m == 0x3fff || m == 0x7fff)) ||
             (s == 6 && m == 0xffff)
    ensures Mix(Mix(Mix(h, x, s, m), y, s, m), z, s, m) == Mix(Mix(Mix(g, x, s, m), y, s, m), z, s, m)
  {
    match s
    case 3 => Shifts3(h, g, x, y, z, m);
    case 4 => Shifts4(h, g, x, y, z, m);
    case 5 => Shifts5(h, g, x, y, z, m);
    case _ => Shifts6(h, g, x, y, z, m);
  }

  lemma Shifts3(h: bv32, g: bv32, x: bv32, y: bv32, z: bv32, m: bv32)
    requires m == 0xff || m == 0x1ff
    ensures Mix(Mix(Mix(h, x, 3, m), y, 3, m), z, 3, m) == Mix(Mix(Mix(g, x, 3, m), y, 3, m), z, 3, m)
  {
  }

  lemma Shifts4(h: bv32, g: bv32, x: bv32, y: bv32, z: bv32, m: bv32)
    requires m == 0x3ff || m == 0x7ff || m == 0xfff
    ensures Mix(Mix(Mix(h, x, 4, m), y, 4, m), z, 4, m) == Mix(Mix(Mix(g, x, 4, m), y, 4, m), z, 4, m)
  {
  }

  lemma Shifts5(h: bv32, g: bv32, x: bv32, y: bv32, z: bv32, m: bv32)
    requires m == 0x1fff || m == 0x3fff || m == 0x7fff
    ensures Mix(Mix(Mix(h, x, 5, m), y, 5, m), z, 5, m) == Mix(Mix(Mix(g, x, 5, m), y, 5, m), z, 5, m)
  {
  }

  lemma Shifts6(h: bv32, g: bv32, x: bv32, y: bv32, z: bv32, m: bv32)
    requires m == 0xffff
    ensures Mix(Mix(Mix(h, x, 6, m), y, 6, m), z, 6, m) == Mix(Mix(Mix(g, x, 6, m), y, 6, m), z, 6, m)
  {
  }

  /** Two updates prime the key, whatever it held before. */
  lemma TwoUpdatesPrime(b: nat, h: bv32, x: byte, y: byte)
    requires HashBits(b)
    ensures Primed(b, UpdateHash(b, UpdateHash(b, h, x), y), x, y)
  {
    MaskValue(b);
    forall z: byte
      ensures UpdateHash(b, UpdateHash(b, UpdateHash(b, h, x), y), z) == Hash3(b, x, y, z)
    {
      OldestByteShiftsOut(h, 0, x as bv32, y as bv32, z as bv32, Shift(b), Mask(b));
    }
  }

  /** UPDATE_HASH on a primed key yields the true hash and a key primed one byte further on. */
  lemma Roll(b: nat, h: bv32, x: byte, y: byte, z: byte)
    requires HashBits(b) && Primed(b, h, x, y)
    ensures UpdateHash(b, h, z) == Hash3(b, x, y, z)
    ensures Primed(b, UpdateHash(b, h, z), y, z)
  {
    TwoUpdatesPrime(b, UpdateHash(b, 0, x), y, z);
  }

  lemma XorCancels(p: bv32, y: bv32, z: bv32, m: bv32)
    requires m & 0xff == 0xff && y <= 0xff && z <= 0xff
    requires (p ^ y) & m == (p ^ z) & m
    ensures y == z
  {
    assert (p ^ y) & 0xff == (p ^ z) & 0xff by {
      assert ((p ^ y) & m) & 0xff == (p ^ y) & 0xff;
      assert ((p ^ z) & m) & 0xff == (p ^ z) & 0xff;
    }
  }

  lemma WideningInjective(y: byte, z: byte)
    requires y as bv32 == z as bv32
    ensures y == z
  {
  }

  lemma LastByteForced(b: nat, h: bv32, y: byte, z: byte)
    requires HashBits(b) && UpdateHash(b, h, y) == UpdateHash(b, h, z)
    ensures y == z
  {
    var p := h << Shift(b);
    XorCancels(p, y as bv32, z as bv32, Mask(b));
    WideningInjective(y, z);
  }

  /** Equal hashes and two equal leading bytes force the third, since hash_bits >= 8. */
  lemma ThirdByteForced(b: nat, x: byte, y: byte, z: byte, z': byte)
    requires HashBits(b) && Hash3(b, x, y, z) == Hash3(b, x, y, z')
    ensures z == z'
  {
    LastByteForced(b, UpdateHash(b, UpdateHash(b, 0, x), y), z, z');
  }

  /** Table indices determine the key. */
  lemma IndexInjective(g: bv32, h: bv32)
    requires Index(g) == Index(h)
    ensures g == h
  {
    assert (g as int) as bv32 == g;
    assert (h as int) as bv32 == h;
  }

  /** The hash of the string at position a of a stream, as a table index. */
  ghost function HashAt(b: nat, s: seq<byte>, a: nat): (h: nat)
    requires HashBits(b) && a + MIN_MATCH <= |s|
    ensures h < Pow2(b)
  {
    InRange(b, UpdateHash(b, UpdateHash(b, 0, s[a]), s[a + 1]), s[a + 2]);
    Index(Hash3(b, s[a], s[a + 1], s[a + 2]))
  }

  lemma HashAtSame(b: nat, s: seq<byte>, a: nat, c: nat)
    requires HashBits(b) && a + MIN_MATCH <= |s| && c + MIN_MATCH <= |s|
    requires s[a] == s[c] && s[a + 1] == s[c + 1] && s[a + 2] == s[c + 2]
    ensures HashAt(b, s, a) == HashAt(b, s, c)
  {
    hide Hash3, Index;
  }

  /** The key is ready for the string at position a: only its third byte is missing. */
  ghost predicate PrimedAt(b: nat, h: bv32, s: seq<byte>, a: nat)
    requires HashBits(b) && a + 2 <= |s|
  {
    Primed(b, h, s[a], s[a + 1])
  }

  /** Rolling the third byte in gives the string's table index and primes the next string. */
  lemma RollAt(b: nat, h: bv32, s: seq<byte>, a: nat)
    requires HashBits(b) && a + MIN_MATCH <= |s| && PrimedAt(b, h, s, a)
    ensures Index(UpdateHash(b, h, s[a + 2])) == HashAt(b, s, a)
    ensures PrimedAt(b, UpdateHash(b, h, s[a + 2]), s, a + 1)
  {
    Roll(b, h, s[a], s[a + 1], s[a + 2]);
  }

  /** Two strings with one hash that agree on two bytes agree on the third. */
  lemma ThirdByteAt(b: nat, s: seq<byte>, a: nat, c: nat)
    requires HashBits(b) && a + MIN_MATCH <= |s| && c + MIN_MATCH <= |s|
    requires HashAt(b, s, a) == HashAt(b, s, c)
    requires s[a] == s[c] && s[a + 1] == s[c + 1]
    ensures s[a + 2] == s[c + 2]
  {
    hide Hash3, Index;
    IndexInjective(Hash3(b, s[a], s[a + 1], s[a + 2]), Hash3(b, s[c], s[c + 1], s[c + 2]));
    ThirdByteForced(b, s[a], s[a + 1], s[a + 2], s[c + 2]);
  }

  lemma FirstByteIsKey(b: nat, x: byte)
    requires HashBits(b)
    ensures UpdateHash(b, 0, x) == x as bv32
  {
    MaskValue(b);
  }

  /** Restarting the key from the first two bytes of a string. */
  lemma FirstTwoBytesPrime(b: nat, s: seq<byte>, a: nat)
    requires HashBits(b) && a + 2 <= |s|
    ensures PrimedAt(b, UpdateHash(b, s[a] as bv32, s[a + 1]), s, a)
  {
    hide UpdateHash;
    FirstByteIsKey(b, s[a]);
    TwoUpdatesPrime(b, 0, s[a], s[a + 1]);
  }
}

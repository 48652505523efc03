/** The check values of the zlib and gzip formats, by their byte-at-a-time and bit-at-a-time definitions. */
module Checks {
  import opened Basics

  const BASE: nat := 65521

  const UINT32: nat := 0x1_0000_0000

  type uint32 = n: nat | n < 0x1_0000_0000

  /** One byte of Adler-32, section 8.2 of RFC 1950. */
  function AdlerByte(adler: nat, c: byte): (r: nat)
    ensures r < UINT32
  {
    var s1 := (adler % 65536 + c as int) % BASE;
    var s2 := (adler / 65536 % 65536 + s1) % BASE;
    s2 * 65536 + s1
  }

  /** Adler-32 of data, continuing from `adler`. */
  function Adler(adler: nat, data: seq<byte>): (r: nat)
    ensures adler < UINT32 ==> r < UINT32
  {
    if data == [] then adler else AdlerByte(Adler(adler, data[..|data| - 1]), data[|data| - 1])
  }

  const POLY: bv32 := 0xedb88320

  /** Multiplication by x modulo the CRC polynomial, coefficients reflected. */
  function TimesX(p: bv32): bv32 {
    if p & 1 == 1 then (p >> 1) ^ POLY else p >> 1
  }

  function TimesX8(p: bv32): bv32 {
    TimesX(TimesX(TimesX(TimesX(TimesX(TimesX(TimesX(TimesX(p))))))))
  }

  /** The CRC register after one more byte, bit by bit, section 8 of RFC 1952. */
  function CrcByte(crc: bv32, c: byte): bv32 {
    TimesX8(crc ^ (c as bv32))
  }

  /** The CRC register after data, without pre- or post-conditioning. */
  function CrcRegister(crc: bv32, data: seq<byte>): bv32 {
    if data == [] then crc else CrcByte(CrcRegister(crc, data[..|data| - 1]), data[|data| - 1])
  }

  /** Pre- and post-conditioning. */
  function Flip(x: bv32): bv32 { x ^ 0xffff_ffff }

  /** CRC-32 of data, continuing from `crc`. */
  function Crc(crc: bv32, data: seq<byte>): bv32 {
    Flip(CrcRegister(Flip(crc), data))
  }

  lemma {:induction false} AdlerAppend(adler: nat, a: seq<byte>, b: seq<byte>)
    ensures Adler(adler, a + b) == Adler(Adler(adler, a), b)
  {
    hide AdlerByte;
    if b == [] {
      assert a + b == a;
    } else {
      AdlerAppend(adler, a, b[..|b| - 1]);
      assert (a + b)[..|a + b| - 1] == a + b[..|b| - 1];
    }
  }

  lemma {:induction false} CrcRegisterAppend(crc: bv32, a: seq<byte>, b: seq<byte>)
    ensures CrcRegister(crc, a + b) == CrcRegister(CrcRegister(crc, a), b)
  {
    hide CrcByte;
    if b == [] {
      assert a + b == a;
    } else {
      CrcRegisterAppend(crc, a, b[..|b| - 1]);
      assert (a + b)[..|a + b| - 1] == a + b[..|b| - 1];
    }
  }

  lemma FlipTwice(x: bv32)
    ensures Flip(Flip(x)) == x
  {
  }

  lemma CrcAppend(crc: bv32, a: seq<byte>, b: seq<byte>)
    ensures Crc(crc, a + b) == Crc(Crc(crc, a), b)
  {
    hide CrcByte, CrcRegister, Flip;
    CrcRegisterAppend(Flip(crc), a, b);
    FlipTwice(CrcRegister(Flip(crc), a));
  }

  /** The format around the deflate data: |wrap| in deflate_state. */
  datatype Wrap = Raw | Zlib | Gzip

  /** The value adler32() and crc32() return for a null buffer. */
  function Initial(wrap: Wrap): nat {
    if wrap.Gzip? then 0 else 1
  }

  /** What read_buf does to strm->adler. */
  function Update(wrap: Wrap, check: nat, data: seq<byte>): (r: nat)
    requires check < UINT32
    ensures r < UINT32
  {
    match wrap
    case Raw => check
    case Zlib => Adler(check, data)
    case Gzip => Crc(check as bv32, data) as int
  }

  lemma UpdateEmpty(wrap: Wrap)
    ensures Update(wrap, Initial(wrap), []) == Initial(wrap)
  {
    FlipTwice(0);
  }

  /** Reading in pieces gives the check value of the whole. */
  lemma UpdateAppend(wrap: Wrap, check: nat, a: seq<byte>, b: seq<byte>)
    requires check < UINT32
    ensures Update(wrap, check, a + b) == Update(wrap, Update(wrap, check, a), b)
  {
    hide Crc, Adler;
    AdlerAppend(check, a, b);
    var c := Crc(check as bv32, a);
    CrcAppend(check as bv32, a, b);
    assert (c as int) as bv32 == c;
  }
}

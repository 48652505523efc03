/** z_word_t: words of W = 4 or 8 bytes, held in 64 bits, in either byte order. */
module Words {
  import opened Basics
  import opened Checks
  import opened Gf2
  import opened Braids

  predicate WordSize(w: nat) { w == 4 || w == 8 }

  /** The word has no bits beyond its size. */
  predicate Fits(w: nat, word: bv64) { w == 8 || word >> 32 == 0 }

  function Xor(a: bv64, b: bv64): bv64 { a ^ b }

  function Down(word: bv64): bv64 { word >> 8 }

  function Widen(c: bv32): bv64 { c as bv64 }

  /** `word >> (k << 3)`, a byte at a time. */
  function ShiftBytes(word: bv64, k: nat): bv64 {
    if k == 0 then word else Down(ShiftBytes(word, k - 1))
  }

  function LowByte(word: bv64): byte { (word & 0xff) as byte }

  /** `(word >> (k << 3)) & 0xff`. */
  function ByteAt(word: bv64, k: nat): byte { LowByte(ShiftBytes(word, k)) }

  /** The bytes of a word, least significant first. */
  function WordBytes(word: bv64, w: nat): (r: seq<byte>)
    requires WordSize(w)
    ensures |r| == w
  {
    seq(w, k requires 0 <= k < w => ByteAt(word, k))
  }

  /** Eight bytes as a number, least significant first. */
  function Pack(b0: byte, b1: byte, b2: byte, b3: byte, b4: byte, b5: byte, b6: byte, b7: byte): bv64 {
    (b0 as bv64) | ((b1 as bv64) << 8) | ((b2 as bv64) << 16) | ((b3 as bv64) << 24) |
    ((b4 as bv64) << 32) | ((b5 as bv64) << 40) | ((b6 as bv64) << 48) | ((b7 as bv64) << 56)
  }

  /** A word read from memory by a little-endian processor. */
  function LoadLittle(w: nat, d: seq<byte>): bv64
    requires WordSize(w) && |d| == w
  {
    if w == 4 then Pack(d[0], d[1], d[2], d[3], 0, 0, 0, 0)
    else Pack(d[0], d[1], d[2], d[3], d[4], d[5], d[6], d[7])
  }

  /** A word read from memory by a big-endian processor. */
  function LoadBig(w: nat, d: seq<byte>): bv64
    requires WordSize(w) && |d| == w
  {
    if w == 4 then Pack(d[3], d[2], d[1], d[0], 0, 0, 0, 0)
    else Pack(d[7], d[6], d[5], d[4], d[3], d[2], d[1], d[0])
  }

  function ByteSwap8(word: bv64): bv64 {
    ((word & 0xff00000000000000) >> 56) | ((word & 0xff000000000000) >> 40) |
    ((word & 0xff0000000000) >> 24) | ((word & 0xff00000000) >> 8) |
    ((word & 0xff000000) << 8) | ((word & 0xff0000) << 24) |
    ((word & 0xff00) << 40) | ((word & 0xff) << 56)
  }

  function ByteSwap4(word: bv64): bv64 {
    ((word & 0xff000000) >> 24) | ((word & 0xff0000) >> 8) | ((word & 0xff00) << 8) | ((word & 0xff) << 24)
  }

  function ByteSwap(w: nat, word: bv64): bv64 {
    if w == 8 then ByteSwap8(word) else ByteSwap4(word)
  }

  // ----- Facts about bits -----

  lemma DownPack(b0: byte, b1: byte, b2: byte, b3: byte, b4: byte, b5: byte, b6: byte, b7: byte)
    ensures LowByte(Pack(b0, b1, b2, b3, b4, b5, b6, b7)) == b0
    ensures Down(Pack(b0, b1, b2, b3, b4, b5, b6, b7)) == Pack(b1, b2, b3, b4, b5, b6, b7, 0)
  {
  }

  lemma PackOfBytes(x: bv64)
    ensures x == Pack((x & 0xff) as byte, ((x >> 8) & 0xff) as byte,
                      ((x >> 16) & 0xff) as byte, ((x >> 24) & 0xff) as byte,
      ((x >> 32) & 0xff) as byte, ((x >> 40) & 0xff) as byte, ((x >> 48) & 0xff) as byte, ((x >> 56) & 0xff) as byte)
  {
  }

  lemma PackOfFour(x: bv64)
    requires x >> 32 == 0
    ensures x == Pack((x & 0xff) as byte, ((x >> 8) & 0xff) as byte,
                      ((x >> 16) & 0xff) as byte, ((x >> 24) & 0xff) as byte,
      0, 0, 0, 0)
  {
  }

  lemma IsPack(w: nat, x: bv64)
      returns (b0: byte, b1: byte, b2: byte, b3: byte, b4: byte, b5: byte, b6: byte, b7: byte)
    requires WordSize(w) && Fits(w, x)
    ensures x == Pack(b0, b1, b2, b3, b4, b5, b6, b7)
    ensures w == 4 ==> b4 == b5 == b6 == b7 == 0
  {
    hide Pack;
    b0, b1 := (x & 0xff) as byte, ((x >> 8) & 0xff) as byte;
    b2, b3 := ((x >> 16) & 0xff) as byte, ((x >> 24) & 0xff) as byte;
    if w == 4 {
      b4, b5, b6, b7 := 0, 0, 0, 0;
      PackOfFour(x);
    } else {
      b4, b5 := ((x >> 32) & 0xff) as byte, ((x >> 40) & 0xff) as byte;
      b6, b7 := ((x >> 48) & 0xff) as byte, ((x >> 56) & 0xff) as byte;
      PackOfBytes(x);
    }
  }

  lemma PackFits(b0: byte, b1: byte, b2: byte, b3: byte)
    ensures Fits(4, Pack(b0, b1, b2, b3, 0, 0, 0, 0))
  {
  }

  lemma XorPack(b0: byte, b1: byte, b2: byte, b3: byte, b4: byte, b5: byte, b6: byte, b7: byte,
                c0: byte, c1: byte, c2: byte, c3: byte, c4: byte, c5: byte, c6: byte, c7: byte)
    ensures Xor(Pack(b0, b1, b2, b3, b4, b5, b6, b7), Pack(c0, c1, c2, c3, c4, c5, c6, c7))
         == Pack(b0 ^ c0, b1 ^ c1, b2 ^ c2, b3 ^ c3, b4 ^ c4, b5 ^ c5, b6 ^ c6, b7 ^ c7)
  {
  }

  lemma SwapPack8(b0: byte, b1: byte, b2: byte, b3: byte, b4: byte, b5: byte, b6: byte, b7: byte)
    ensures ByteSwap8(Pack(b0, b1, b2, b3, b4, b5, b6, b7)) == Pack(b7, b6, b5, b4, b3, b2, b1, b0)
  {
  }

  lemma SwapPack4(b0: byte, b1: byte, b2: byte, b3: byte, b4: byte, b5: byte, b6: byte, b7: byte)
    ensures ByteSwap4(Pack(b0, b1, b2, b3, b4, b5, b6, b7)) == Pack(b3, b2, b1, b0, 0, 0, 0, 0)
  {
  }

  lemma ShiftUpPack(b0: byte, b1: byte, b2: byte, b3: byte, b4: byte, b5: byte, b6: byte, b7: byte)
    ensures ShiftUp(8, Pack(b0, b1, b2, b3, b4, b5, b6, b7)) == Pack(0, b0, b1, b2, b3, b4, b5, b6)
    ensures ShiftUp(4, Pack(b0, b1, b2, b3, 0, 0, 0, 0)) == Pack(0, b0, b1, b2, 0, 0, 0, 0)
  {
    hide Pack;
    UpPack8(b0, b1, b2, b3, b4, b5, b6, b7);
    UpPack4(b0, b1, b2, b3);
  }

  lemma UpPack8(b0: byte, b1: byte, b2: byte, b3: byte, b4: byte, b5: byte, b6: byte, b7: byte)
    ensures Pack(b0, b1, b2, b3, b4, b5, b6, b7) << 8 == Pack(0, b0, b1, b2, b3, b4, b5, b6)
  {
  }

  lemma UpPack4(b0: byte, b1: byte, b2: byte, b3: byte)
    ensures (Pack(b0, b1, b2, b3, 0, 0, 0, 0) << 8) & 0xffff_ffff == Pack(0, b0, b1, b2, 0, 0, 0, 0)
  {
  }

  // ----- Bytes and words -----

  lemma PackBytes(b0: byte, b1: byte, b2: byte, b3: byte, b4: byte, b5: byte, b6: byte, b7: byte, x: bv64)
    requires x == Pack(b0, b1, b2, b3, b4, b5, b6, b7)
    ensures ByteAt(x, 0) == b0 && ByteAt(x, 1) == b1 && ByteAt(x, 2) == b2 && ByteAt(x, 3) == b3
    ensures ByteAt(x, 4) == b4 && ByteAt(x, 5) == b5 && ByteAt(x, 6) == b6 && ByteAt(x, 7) == b7
  {
    hide Pack, Down, LowByte;
    DownPack(b0, b1, b2, b3, b4, b5, b6, b7);
    assert ShiftBytes(x, 1) == Down(ShiftBytes(x, 0));
    DownPack(b1, b2, b3, b4, b5, b6, b7, 0);
    assert ShiftBytes(x, 2) == Down(ShiftBytes(x, 1));
    DownPack(b2, b3, b4, b5, b6, b7, 0, 0);
    assert ShiftBytes(x, 3) == Down(ShiftBytes(x, 2));
    DownPack(b3, b4, b5, b6, b7, 0, 0, 0);
    assert ShiftBytes(x, 4) == Down(ShiftBytes(x, 3));
    DownPack(b4, b5, b6, b7, 0, 0, 0, 0);
    assert ShiftBytes(x, 5) == Down(ShiftBytes(x, 4));
    DownPack(b5, b6, b7, 0, 0, 0, 0, 0);
    assert ShiftBytes(x, 6) == Down(ShiftBytes(x, 5));
    DownPack(b6, b7, 0, 0, 0, 0, 0, 0);
    assert ShiftBytes(x, 7) == Down(ShiftBytes(x, 6));
    DownPack(b7, 0, 0, 0, 0, 0, 0, 0);
  }

  lemma LittleRoundTrip(w: nat, d: seq<byte>)
    requires WordSize(w) && |d| == w
    ensures WordBytes(LoadLittle(w, d), w) == d && Fits(w, LoadLittle(w, d))
  {
    hide Pack, ByteAt, Fits;
    var x := LoadLittle(w, d);
    AnyFits(x);
    if w == 4 {
      PackBytes(d[0], d[1], d[2], d[3], 0, 0, 0, 0, x);
      PackFits(d[0], d[1], d[2], d[3]);
    } else {
      PackBytes(d[0], d[1], d[2], d[3], d[4], d[5], d[6], d[7], x);
    }
  }

  lemma AnyFits(x: bv64)
    ensures Fits(8, x)
  {
  }

  lemma BigIsSwapped(w: nat, d: seq<byte>)
    requires WordSize(w) && |d| == w
    ensures LoadBig(w, d) == ByteSwap(w, LoadLittle(w, d))
  {
    hide Pack, ByteSwap4, ByteSwap8;
    if w == 4 {
      SwapPack4(d[0], d[1], d[2], d[3], 0, 0, 0, 0);
    } else {
      SwapPack8(d[0], d[1], d[2], d[3], d[4], d[5], d[6], d[7]);
    }
  }

  lemma SwapPack(w: nat, b0: byte, b1: byte, b2: byte, b3: byte, b4: byte, b5: byte, b6: byte, b7: byte)
    requires WordSize(w)
    ensures ByteSwap(w, Pack(b0, b1, b2, b3, b4, b5, b6, b7))
         == if w == 8 then Pack(b7, b6, b5, b4, b3, b2, b1, b0) else Pack(b3, b2, b1, b0, 0, 0, 0, 0)
  {
    hide Pack, ByteSwap4, ByteSwap8;
    SwapPack8(b0, b1, b2, b3, b4, b5, b6, b7);
    SwapPack4(b0, b1, b2, b3, b4, b5, b6, b7);
  }

  /** The bytes of a swapped word are in reverse order. */
  lemma SwapReverses(w: nat, a: bv64, k: nat)
    requires WordSize(w) && Fits(w, a) && k < w
    ensures ByteAt(ByteSwap(w, a), k) == ByteAt(a, w - 1 - k)
  {
    hide Pack, ByteSwap, ByteAt;
    var b0, b1, b2, b3, b4, b5, b6, b7 := IsPack(w, a);
    PackBytes(b0, b1, b2, b3, b4, b5, b6, b7, a);
    SwapPack(w, b0, b1, b2, b3, b4, b5, b6, b7);
    if w == 4 {
      PackBytes(b3, b2, b1, b0, 0, 0, 0, 0, ByteSwap(w, a));
    } else {
      PackBytes(b7, b6, b5, b4, b3, b2, b1, b0, ByteSwap(w, a));
    }
  }

  lemma SwapLinear(w: nat, a: bv64, b: bv64)
    requires WordSize(w) && Fits(w, a) && Fits(w, b)
    ensures ByteSwap(w, Xor(a, b)) == Xor(ByteSwap(w, a), ByteSwap(w, b))
  {
    hide Pack, ByteSwap, Xor;
    var a0, a1, a2, a3, a4, a5, a6, a7 := IsPack(w, a);
    var b0, b1, b2, b3, b4, b5, b6, b7 := IsPack(w, b);
    SwapPack(w, a0, a1, a2, a3, a4, a5, a6, a7);
    SwapPack(w, b0, b1, b2, b3, b4, b5, b6, b7);
    SwapPack(w, a0 ^ b0, a1 ^ b1, a2 ^ b2, a3 ^ b3, a4 ^ b4, a5 ^ b5, a6 ^ b6, a7 ^ b7);
    XorPack(a0, a1, a2, a3, a4, a5, a6, a7, b0, b1, b2, b3, b4, b5, b6, b7);
    if w == 4 {
      XorPack(a3, a2, a1, a0, 0, 0, 0, 0, b3, b2, b1, b0, 0, 0, 0, 0);
    } else {
      XorPack(a7, a6, a5, a4, a3, a2, a1, a0, b7, b6, b5, b4, b3, b2, b1, b0);
    }
  }

  lemma SwapTwice(w: nat, a: bv64)
    requires WordSize(w) && Fits(w, a)
    ensures ByteSwap(w, ByteSwap(w, a)) == a && Fits(w, ByteSwap(w, a))
  {
    hide Pack, ByteSwap;
    var b0, b1, b2, b3, b4, b5, b6, b7 := IsPack(w, a);
    SwapPack(w, b0, b1, b2, b3, b4, b5, b6, b7);
    if w == 4 {
      SwapPack(w, b3, b2, b1, b0, 0, 0, 0, 0);
      PackFits(b3, b2, b1, b0);
    } else {
      SwapPack(w, b7, b6, b5, b4, b3, b2, b1, b0);
    }
  }

  /** `crc_word_big`'s shift: bits leave at the top of the word. */
  function ShiftUp(w: nat, data: bv64): bv64 {
    if w == 8 then data << 8 else (data << 8) & 0xffff_ffff
  }

  lemma SwapShift(w: nat, data: bv64)
    requires WordSize(w) && Fits(w, data)
    ensures ShiftUp(w, ByteSwap(w, data)) == ByteSwap(w, Down(data))
  {
    hide Pack, ByteSwap, ShiftUp, Down;
    var b0, b1, b2, b3, b4, b5, b6, b7 := IsPack(w, data);
    SwapPack(w, b0, b1, b2, b3, b4, b5, b6, b7);
    DownPack(b0, b1, b2, b3, b4, b5, b6, b7);
    SwapPack(w, b1, b2, b3, b4, b5, b6, b7, 0);
    if w == 4 {
      ShiftUpPack(b3, b2, b1, b0, 0, 0, 0, 0);
    } else {
      ShiftUpPack(b7, b6, b5, b4, b3, b2, b1, b0);
    }
  }

  lemma XorFits(w: nat, a: bv64, b: bv64)
    requires Fits(w, a) && Fits(w, b)
    ensures Fits(w, Xor(a, b)) && Fits(w, Down(a))
  {
  }

  lemma WidenFits(w: nat, c: bv32)
    ensures Fits(w, Widen(c))
  {
  }

  // ----- Bytes through the table -----

  function Half(v: bv32): bv32 { v >> 1 }

  lemma Halve(v: bv32, m: bv32)
    requires m & 1 == 1 && v & m == 0
    ensures TimesX(v) == Half(v) && Half(v) & (m >> 1) == 0
  {
  }

  lemma EightHalves(v: bv32)
    ensures Half(Half(Half(Half(Half(Half(Half(Half(v)))))))) == v >> 8
  {
  }

  /** Eight empty coefficients only move the others. */
  lemma EmptyByte(v: bv32)
    requires v & 0xff == 0
    ensures TimesX8(v) == v >> 8
  {
    hide TimesX, Half;
    EightHalves(v);
    var v1 := Half(v);
    var v2 := Half(v1);
    var v3 := Half(v2);
    var v4 := Half(v3);
    var v5 := Half(v4);
    var v6 := Half(v5);
    Halve(v, 0xff);
    Halve(v1, 0x7f);
    Halve(v2, 0x3f);
    Halve(v3, 0x1f);
    Halve(v4, 0x0f);
    Halve(v5, 0x07);
    Halve(v6, 0x03);
    Halve(Half(v6), 0x01);
  }

  lemma TimesX8Linear(a: bv32, b: bv32)
    ensures TimesX8(Add(a, b)) == Add(TimesX8(a), TimesX8(b))
  {
    hide TimesX8, Times, Add;
    EightTimes(a);
    EightTimes(b);
    EightTimes(Add(a, b));
    TimesLinear(a, b, 8);
  }

  function Low32(v: bv32): byte { (v & 0xff) as byte }

  function Table(c: byte): bv32 { TimesX8(c as bv32) }

  lemma SplitLow(v: bv32)
    ensures v == Add(v & 0xffff_ff00, Low32(v) as bv32)
    ensures (v & 0xffff_ff00) & 0xff == 0 && (v & 0xffff_ff00) >> 8 == v >> 8
  {
  }

  /** Why a table of 256 entries is enough. */
  lemma ByTable(v: bv32)
    ensures TimesX8(v) == Add(v >> 8, Table(Low32(v)))
  {
    hide TimesX8, Add, Low32;
    SplitLow(v);
    EmptyByte(v & 0xffff_ff00);
    TimesX8Linear(v & 0xffff_ff00, Low32(v) as bv32);
  }

  /** The byte-wise step of crc32_z. */
  lemma ByteStep(crc: bv32, c: byte)
    ensures CrcByte(crc, c) == Add(crc >> 8, Table(Low32(Add(crc, c as bv32))))
  {
    hide TimesX8, Add, Low32, Table;
    ByTable(Add(crc, c as bv32));
    StepInput(crc, c);
  }

  lemma StepInput(crc: bv32, c: byte)
    ensures CrcByte(crc, c) == TimesX8(Add(crc, c as bv32))
    ensures Add(crc, c as bv32) >> 8 == crc >> 8
  {
    hide TimesX8;
    assert (crc ^ (c as bv32)) >> 8 == crc >> 8;
  }

  // ----- A register inside a word -----

  /** One byte of crc_word: the low byte leaves the word through the table of bytes. */
  function WordStep(data: bv64): bv64 {
    Xor(Down(data), Widen(Table(LowByte(data))))
  }

  function WordSteps(data: bv64, k: nat): bv64 {
    if k == 0 then data else WordStep(WordSteps(data, k - 1))
  }

  lemma WidenAdd(a: bv32, b: bv32)
    ensures Widen(Add(a, b)) == Xor(Widen(a), Widen(b))
  {
    WideXor(a, b);
  }

  lemma WideXor(a: bv32, b: bv32)
    ensures (a ^ b) as bv64 == (a as bv64) ^ (b as bv64)
  {
  }

  lemma XorAssociates(a: bv64, b: bv64, c: bv64)
    ensures Xor(Xor(a, b), c) == Xor(a, Xor(b, c))
  {
    hide Xor;
    XorIs(a, b);
    XorIs(b, c);
    XorIs(Xor(a, b), c);
    XorIs(a, Xor(b, c));
    XorBits(a, b, c, Xor(a, b), Xor(b, c));
  }

  lemma XorIs(a: bv64, b: bv64)
    ensures Xor(a, b) == a ^ b
  {
  }

  lemma XorBits(a: bv64, b: bv64, c: bv64, ab: bv64, bc: bv64)
    requires ab == a ^ b && bc == b ^ c
    ensures ab ^ c == a ^ bc
  {
  }

  lemma ShiftedXor(v: bv64, c: bv32)
    ensures Down(Xor(v, Widen(c))) == Xor(Down(v), Widen(c >> 8))
  {
    ShiftedBits(v, c);
  }

  lemma ShiftedBits(v: bv64, c: bv32)
    ensures (v ^ (c as bv64)) >> 8 == (v >> 8) ^ ((c >> 8) as bv64)
  {
  }

  lemma LowXor(v: bv64, c: bv32)
    ensures LowByte(Xor(v, Widen(c))) == Low32(Add(c, LowByte(v) as bv32))
  {
    LowBits(v, c);
  }

  lemma LowBits(v: bv64, c: bv32)
    ensures ((v ^ (c as bv64)) & 0xff) as byte == ((c ^ (((v & 0xff) as byte) as bv32)) & 0xff) as byte
  {
  }

  lemma WordStepIs(v: bv64, c: bv32)
    ensures WordStep(Xor(v, Widen(c))) == Xor(Down(v), Widen(CrcByte(c, LowByte(v))))
  {
    hide CrcByte, Add, Xor, Widen, Down, LowByte, Low32, Table;
    ByteStep(c, LowByte(v));
    LowXor(v, c);
    ShiftedXor(v, c);
    var t := Table(LowByte(Xor(v, Widen(c))));
    WidenAdd(c >> 8, t);
    XorAssociates(Down(v), Widen(c >> 8), Widen(t));
  }

  /** A register added to a word acts as the register before the word's bytes. */
  lemma {:induction false} RegisterInWord(v: bv64, c: bv32, w: nat, k: nat)
    requires WordSize(w) && k <= w
    ensures WordSteps(Xor(v, Widen(c)), k) == Xor(ShiftBytes(v, k), Widen(CrcRegister(c, WordBytes(v, w)[..k])))
  {
    hide CrcByte, WordStep, Xor, Widen, Down, LowByte;
    if k > 0 {
      var bytes := WordBytes(v, w);
      RegisterInWord(v, c, w, k - 1);
      assert bytes[..k][..k - 1] == bytes[..k - 1] && bytes[..k][k - 1] == bytes[k - 1];
      WordStepIs(ShiftBytes(v, k - 1), CrcRegister(c, bytes[..k - 1]));
    }
  }

  lemma ShiftAll(v: bv64, w: nat)
    requires WordSize(w) && Fits(w, v)
    ensures ShiftBytes(v, w) == 0
  {
    hide Down;
    var v4 := ShiftBytes(v, 4);
    assert v4 == Down(Down(Down(Down(v)))) by {
      assert ShiftBytes(v, 1) == Down(v) && ShiftBytes(v, 2) == Down(ShiftBytes(v, 1));
      assert ShiftBytes(v, 3) == Down(ShiftBytes(v, 2)) && v4 == Down(ShiftBytes(v, 3));
    }
    FourDown(v);
    if w == 8 {
      assert ShiftBytes(v, 5) == Down(v4) && ShiftBytes(v, 6) == Down(ShiftBytes(v, 5));
      assert ShiftBytes(v, 7) == Down(ShiftBytes(v, 6)) && ShiftBytes(v, 8) == Down(ShiftBytes(v, 7));
      FourDown(v4);
      AllDown(v);
    }
  }

  lemma FourDown(v: bv64)
    ensures Down(Down(Down(Down(v)))) == v >> 32
  {
  }

  lemma AllDown(v: bv64)
    ensures v >> 32 >> 32 == 0
  {
  }

  lemma XorZero(a: bv64)
    ensures Xor(0, a) == a && Xor(a, Widen(0)) == a
  {
  }

  /** crc_word of a word with a register added in is the register after the word's bytes. */
  lemma WordRegister(v: bv64, c: bv32, w: nat)
    requires WordSize(w) && Fits(w, v)
    ensures WordSteps(Xor(v, Widen(c)), w) == Widen(CrcRegister(c, WordBytes(v, w)))
  {
    hide ShiftBytes, CrcRegister, WordSteps, Xor, Widen;
    RegisterInWord(v, c, w, w);
    ShiftAll(v, w);
    assert WordBytes(v, w)[..w] == WordBytes(v, w);
    XorZero(Widen(CrcRegister(c, WordBytes(v, w))));
  }

  /** A register may be added to the word or kept before it. */
  lemma RegisterMoves(v: bv64, c: bv32, w: nat)
    requires WordSize(w) && Fits(w, v)
    ensures CrcRegister(0, WordBytes(Xor(v, Widen(c)), w)) == CrcRegister(c, WordBytes(v, w))
  {
    hide CrcRegister, WordSteps, WordBytes, Xor, Widen, Fits;
    var u := Xor(v, Widen(c));
    WidenFits(w, c);
    XorFits(w, v, Widen(c));
    XorZero(u);
    WordRegister(u, 0, w);
    WordRegister(v, c, w);
    WideInjective(CrcRegister(0, WordBytes(u, w)), CrcRegister(c, WordBytes(v, w)));
  }

  lemma WideInjective(a: bv32, b: bv32)
    requires Widen(a) == Widen(b)
    ensures a == b
  {
  }
}

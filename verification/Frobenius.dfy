/** Squaring modulo the CRC polynomial, and the period of x^(2^k): x^(2^32) is x again. */
module Frobenius {
  import opened Basics
  import opened Checks
  import opened Gf2

  /** The table of x^(2^k) in crc32.h. */
  function X2N(k: nat): bv32
    requires k < 32
  {
    match k
    case 0 => 0x40000000 case 1 => 0x20000000 case 2 => 0x08000000 case 3 => 0x00800000
    case 4 => 0x00008000 case 5 => 0xedb88320 case 6 => 0xb1e6b092 case 7 => 0xa06a2517
    case 8 => 0xed627dae case 9 => 0x88d14467 case 10 => 0xd7bbfe6a case 11 => 0xec447f11
    case 12 => 0x8e7ea170 case 13 => 0x6427800e case 14 => 0x4d47bae0 case 15 => 0x09fe548f
    case 16 => 0x83852d0f case 17 => 0x30362f1a case 18 => 0x7b5a9cc3 case 19 => 0x31fec169
    case 20 => 0x9fec022a case 21 => 0x6c8dedc4 case 22 => 0x15d6874d case 23 => 0x5fde7a4e
    case 24 => 0xbad90e37 case 25 => 0x2e4e5eef case 26 => 0x4eaba214 case 27 => 0xa8a472c0
    case 28 => 0x429a969e case 29 => 0x148d302a case 30 => 0xc40ba6d0 case _ => 0xc4e22c3c
  }

  function Square(a: bv32): bv32 { Product(a, a) }

  /** Squaring is additive: the mixed terms cancel. */
  lemma SquareAdds(a: bv32, b: bv32)
    ensures Square(Add(a, b)) == Add(Square(a), Square(b))
  {
    hide Add, Product;
    ProductDistributes(a, b, Add(a, b));
    ProductDistributes(a, b, a);
    ProductDistributes(a, b, b);
    ProductCommutes(a, b);
    var aa, ab, bb := Product(a, a), Product(a, b), Product(b, b);
    AddCommutes(ab, bb);
    AddSwap(aa, ab, bb, ab);
    AddZero(ab);
    AddZero(Add(aa, bb));
  }

  function TimesX2(c: bv32): bv32 { TimesX(TimesX(c)) }

  /** The sum of the squares of the terms of `a` at or below the bit m, where c is the square of m. */
  function Squares(a: bv32, m: bv32, c: bv32): bv32
    decreases m
  {
    if m == 0 then 0 else Add(Term(a, c, m), Squares(a, m >> 1, TimesX2(c)))
  }

  lemma SquareOfHalf(m: bv32)
    requires OneBit(m) && m != 1
    ensures OneBit(m >> 1) && Square(m >> 1) == TimesX2(Square(m))
  {
    hide OneBit, Product, TimesX;
    HalfBit(m);
    BitBelow(m);
    ProductTimesX(TimesX(m), m);
    ProductCommutes(TimesX(m), m);
    ProductTimesX(m, m);
  }

  lemma SquareOfTerm(a: bv32, m: bv32)
    ensures Square(Term(a, m, m)) == Term(a, Square(m), m)
  {
    hide Product;
    RightZero(0);
  }

  lemma {:induction false} SquaresAreSquare(a: bv32, m: bv32)
    requires OneBit(m)
    ensures Squares(a, m, Square(m)) == Square(a & (m | (m - 1)))
    decreases m
  {
    hide OneBit, Square, Add, Term, TimesX2;
    HalfBit(m);
    TopAndRest(a, m);
    SquareAdds(Term(a, m, m), a & (m - 1));
    SquareOfTerm(a, m);
    BitBelow(m);
    if m == 1 {
      SquareOfZero();
      assert a & 0 == 0;
    } else {
      SquareOfHalf(m);
      SquaresAreSquare(a, m >> 1);
    }
  }

  lemma SquareOfZero()
    ensures Square(0) == 0
  {
    RightZero(0);
  }

  lemma Unfold(a: bv32, m: bv32, c: bv32, d: bv32)
    requires m != 0 && d == TimesX2(c)
    ensures Squares(a, m, c) == (if a & m != 0 then c else 0) ^ Squares(a, m >> 1, d)
  {
    hide TimesX2;
  }

  /** Squaring without recursion: bit i contributes x^(2i), the bits taken in eight groups of four. */
  function Terms0(a: bv32, rest: bv32): bv32 {
    (if a & 0x80000000 != 0 then 0x80000000 else 0) ^ (if a & 0x40000000 != 0 then 0x20000000 else 0) ^
    (if a & 0x20000000 != 0 then 0x08000000 else 0) ^ (if a & 0x10000000 != 0 then 0x02000000 else 0) ^ rest
  }

  function Terms1(a: bv32, rest: bv32): bv32 {
    (if a & 0x08000000 != 0 then 0x00800000 else 0) ^ (if a & 0x04000000 != 0 then 0x00200000 else 0) ^
    (if a & 0x02000000 != 0 then 0x00080000 else 0) ^ (if a & 0x01000000 != 0 then 0x00020000 else 0) ^ rest
  }

  function Terms2(a: bv32, rest: bv32): bv32 {
    (if a & 0x00800000 != 0 then 0x00008000 else 0) ^ (if a & 0x00400000 != 0 then 0x00002000 else 0) ^
    (if a & 0x00200000 != 0 then 0x00000800 else 0) ^ (if a & 0x00100000 != 0 then 0x00000200 else 0) ^ rest
  }

  function Terms3(a: bv32, rest: bv32): bv32 {
    (if a & 0x00080000 != 0 then 0x00000080 else 0) ^ (if a & 0x00040000 != 0 then 0x00000020 else 0) ^
    (if a & 0x00020000 != 0 then 0x00000008 else 0) ^ (if a & 0x00010000 != 0 then 0x00000002 else 0) ^ rest
  }

  function Terms4(a: bv32, rest: bv32): bv32 {
    (if a & 0x00008000 != 0 then 0xedb88320 else 0) ^ (if a & 0x00004000 != 0 then 0x3b6e20c8 else 0) ^
    (if a & 0x00002000 != 0 then 0x0edb8832 else 0) ^ (if a & 0x00001000 != 0 then 0xee0e612c else 0) ^ rest
  }

  function Terms5(a: bv32, rest: bv32): bv32 {
    (if a & 0x00000800 != 0 then 0x3b83984b else 0) ^ (if a & 0x00000400 != 0 then 0x958424a2 else 0) ^
    (if a & 0x00000200 != 0 then 0xc8d98a08 else 0) ^ (if a & 0x00000100 != 0 then 0x32366282 else 0) ^ rest
  }

  function Terms6(a: bv32, rest: bv32): bv32 {
    (if a & 0x00000080 != 0 then 0xe1351b80 else 0) ^ (if a & 0x00000040 != 0 then 0x384d46e0 else 0) ^
    (if a & 0x00000020 != 0 then 0x0e1351b8 else 0) ^ (if a & 0x00000010 != 0 then 0x0384d46e else 0) ^ rest
  }

  function Terms7(a: bv32, rest: bv32): bv32 {
    (if a & 0x00000008 != 0 then 0xed59b63b else 0) ^ (if a & 0x00000004 != 0 then 0xa032af3e else 0) ^
    (if a & 0x00000002 != 0 then 0xc5b428ef else 0) ^ (if a & 0x00000001 != 0 then 0xaa09c88b else 0) ^ rest
  }

  function Unrolled(a: bv32): bv32 {
    Terms0(a, Terms1(a, Terms2(a, Terms3(a, Terms4(a, Terms5(a, Terms6(a, Terms7(a, 0))))))))
  }

  lemma UnrollTerms0(a: bv32)
    ensures Squares(a, 0x80000000, 0x80000000) == Terms0(a, Squares(a, 0x08000000, 0x00800000))
  {
    hide Squares;
    Unfold(a, 0x80000000, 0x80000000, 0x20000000);
    Unfold(a, 0x40000000, 0x20000000, 0x08000000);
    Unfold(a, 0x20000000, 0x08000000, 0x02000000);
    Unfold(a, 0x10000000, 0x02000000, 0x00800000);
  }

  lemma UnrollTerms1(a: bv32)
    ensures Squares(a, 0x08000000, 0x00800000) == Terms1(a, Squares(a, 0x00800000, 0x00008000))
  {
    hide Squares;
    Unfold(a, 0x08000000, 0x00800000, 0x00200000);
    Unfold(a, 0x04000000, 0x00200000, 0x00080000);
    Unfold(a, 0x02000000, 0x00080000, 0x00020000);
    Unfold(a, 0x01000000, 0x00020000, 0x00008000);
  }

  lemma UnrollTerms2(a: bv32)
    ensures Squares(a, 0x00800000, 0x00008000) == Terms2(a, Squares(a, 0x00080000, 0x00000080))
  {
    hide Squares;
    Unfold(a, 0x00800000, 0x00008000, 0x00002000);
    Unfold(a, 0x00400000, 0x00002000, 0x00000800);
    Unfold(a, 0x00200000, 0x00000800, 0x00000200);
    Unfold(a, 0x00100000, 0x00000200, 0x00000080);
  }

  lemma UnrollTerms3(a: bv32)
    ensures Squares(a, 0x00080000, 0x00000080) == Terms3(a, Squares(a, 0x00008000, 0xedb88320))
  {
    hide Squares;
    Unfold(a, 0x00080000, 0x00000080, 0x00000020);
    Unfold(a, 0x00040000, 0x00000020, 0x00000008);
    Unfold(a, 0x00020000, 0x00000008, 0x00000002);
    Unfold(a, 0x00010000, 0x00000002, 0xedb88320);
  }

  lemma UnrollTerms4(a: bv32)
    ensures Squares(a, 0x00008000, 0xedb88320) == Terms4(a, Squares(a, 0x00000800, 0x3b83984b))
  {
    hide Squares;
    Unfold(a, 0x00008000, 0xedb88320, 0x3b6e20c8);
    Unfold(a, 0x00004000, 0x3b6e20c8, 0x0edb8832);
    Unfold(a, 0x00002000, 0x0edb8832, 0xee0e612c);
    Unfold(a, 0x00001000, 0xee0e612c, 0x3b83984b);
  }

  lemma UnrollTerms5(a: bv32)
    ensures Squares(a, 0x00000800, 0x3b83984b) == Terms5(a, Squares(a, 0x00000080, 0xe1351b80))
  {
    hide Squares;
    Unfold(a, 0x00000800, 0x3b83984b, 0x958424a2);
    Unfold(a, 0x00000400, 0x958424a2, 0xc8d98a08);
    Unfold(a, 0x00000200, 0xc8d98a08, 0x32366282);
    Unfold(a, 0x00000100, 0x32366282, 0xe1351b80);
  }

  lemma UnrollTerms6(a: bv32)
    ensures Squares(a, 0x00000080, 0xe1351b80) == Terms6(a, Squares(a, 0x00000008, 0xed59b63b))
  {
    hide Squares;
    Unfold(a, 0x00000080, 0xe1351b80, 0x384d46e0);
    Unfold(a, 0x00000040, 0x384d46e0, 0x0e1351b8);
    Unfold(a, 0x00000020, 0x0e1351b8, 0x0384d46e);
    Unfold(a, 0x00000010, 0x0384d46e, 0xed59b63b);
  }

  lemma UnrollTerms7(a: bv32)
    ensures Squares(a, 0x00000008, 0xed59b63b) == Terms7(a, 0)
  {
    hide Squares;
    Unfold(a, 0x00000008, 0xed59b63b, 0xa032af3e);
    Unfold(a, 0x00000004, 0xa032af3e, 0xc5b428ef);
    Unfold(a, 0x00000002, 0xc5b428ef, 0xaa09c88b);
    Unfold(a, 0x00000001, 0xaa09c88b, 0xb1e6b092);
    NoTerms(a, 0xb1e6b092);
  }

  lemma SquareUnrolled(a: bv32)
    ensures Square(a) == Unrolled(a)
  {
    hide Square, Squares, Terms0, Terms1, Terms2, Terms3, Terms4, Terms5, Terms6, Terms7;
    AllTerms(a);
    UnrollTerms0(a);
    UnrollTerms1(a);
    UnrollTerms2(a);
    UnrollTerms3(a);
    UnrollTerms4(a);
    UnrollTerms5(a);
    UnrollTerms6(a);
    UnrollTerms7(a);
  }

  lemma AllTerms(a: bv32)
    ensures Square(a) == Squares(a, 0x8000_0000, ONE)
  {
    hide Squares, Square, Products;
    FullMask(a);
    SquareOfOne();
    SquaresAreSquare(a, 0x8000_0000);
  }

  lemma SquareOfOne()
    ensures Square(0x8000_0000) == 0x8000_0000
  {
    hide Products;
    ProductOne(ONE);
  }

  lemma FullMask(a: bv32)
    ensures a & (0x8000_0000 | (0x8000_0000 - 1)) == a
  {
  }

  lemma NoTerms(a: bv32, c: bv32)
    ensures Squares(a, 0, c) == 0
  {
  }

  lemma TableFacts0()
    ensures Unrolled(0x40000000) == 0x20000000
    ensures Unrolled(0x20000000) == 0x08000000
    ensures Unrolled(0x08000000) == 0x00800000
    ensures Unrolled(0x00800000) == 0x00008000
    ensures Unrolled(0x00008000) == 0xedb88320
    ensures Unrolled(0xedb88320) == 0xb1e6b092
    ensures Unrolled(0xb1e6b092) == 0xa06a2517
    ensures Unrolled(0xa06a2517) == 0xed627dae
  {
  }

  lemma TableFacts8()
    ensures Unrolled(0xed627dae) == 0x88d14467
    ensures Unrolled(0x88d14467) == 0xd7bbfe6a
    ensures Unrolled(0xd7bbfe6a) == 0xec447f11
    ensures Unrolled(0xec447f11) == 0x8e7ea170
    ensures Unrolled(0x8e7ea170) == 0x6427800e
    ensures Unrolled(0x6427800e) == 0x4d47bae0
    ensures Unrolled(0x4d47bae0) == 0x09fe548f
    ensures Unrolled(0x09fe548f) == 0x83852d0f
  {
  }

  lemma TableFacts16()
    ensures Unrolled(0x83852d0f) == 0x30362f1a
    ensures Unrolled(0x30362f1a) == 0x7b5a9cc3
    ensures Unrolled(0x7b5a9cc3) == 0x31fec169
    ensures Unrolled(0x31fec169) == 0x9fec022a
    ensures Unrolled(0x9fec022a) == 0x6c8dedc4
    ensures Unrolled(0x6c8dedc4) == 0x15d6874d
    ensures Unrolled(0x15d6874d) == 0x5fde7a4e
    ensures Unrolled(0x5fde7a4e) == 0xbad90e37
  {
  }

  lemma TableFacts24()
    ensures Unrolled(0xbad90e37) == 0x2e4e5eef
    ensures Unrolled(0x2e4e5eef) == 0x4eaba214
    ensures Unrolled(0x4eaba214) == 0xa8a472c0
    ensures Unrolled(0xa8a472c0) == 0x429a969e
    ensures Unrolled(0x429a969e) == 0x148d302a
    ensures Unrolled(0x148d302a) == 0xc40ba6d0
    ensures Unrolled(0xc40ba6d0) == 0xc4e22c3c
    ensures Unrolled(0xc4e22c3c) == 0x40000000
  {
  }

  lemma SquaresFrom0(k: nat)
    requires 0 <= k < 8
    ensures Unrolled(X2N(k)) == X2N((k + 1) % 32)
  {
    hide Unrolled;
    TableFacts0();
  }

  lemma SquaresFrom8(k: nat)
    requires 8 <= k < 16
    ensures Unrolled(X2N(k)) == X2N((k + 1) % 32)
  {
    hide Unrolled;
    TableFacts8();
  }

  lemma SquaresFrom16(k: nat)
    requires 16 <= k < 24
    ensures Unrolled(X2N(k)) == X2N((k + 1) % 32)
  {
    hide Unrolled;
    TableFacts16();
  }

  lemma SquaresFrom24(k: nat)
    requires 24 <= k < 32
    ensures Unrolled(X2N(k)) == X2N((k + 1) % 32)
  {
    hide Unrolled;
    TableFacts24();
  }

  /** Squaring steps through the table and comes back to its start. */
  lemma TableSquares(k: nat)
    requires k < 32
    ensures Square(X2N(k)) == X2N((k + 1) % 32)
  {
    hide Unrolled, Square, X2N;
    SquareUnrolled(X2N(k));
    if k < 8 {
      SquaresFrom0(k);
    } else if k < 16 {
      SquaresFrom8(k);
    } else if k < 24 {
      SquaresFrom16(k);
    } else {
      SquaresFrom24(k);
    }
  }

  lemma SquareOfPower(k: nat)
    ensures Square(Power(Pow2(k))) == Power(Pow2(k + 1))
  {
    hide Product, Power;
    PowerSum(Pow2(k), Pow2(k));
  }

  /** x^(2^k) is entry k modulo 32 of the table, for every k. */
  lemma {:induction false} TablePower(k: nat)
    ensures Power(Pow2(k)) == X2N(k % 32)
  {
    hide Power, Square, X2N;
    if k == 0 {
      FirstPower();
    } else {
      TablePower(k - 1);
      SquareOfPower(k - 1);
      TableSquares((k - 1) % 32);
      NextIndex(k);
    }
  }

  lemma NextIndex(k: nat)
    requires k > 0
    ensures ((k - 1) % 32 + 1) % 32 == k % 32
  {
    var q, r := (k - 1) / 32, (k - 1) % 32;
    if r == 31 {
      assert k == 32 * (q + 1);
    } else {
      assert k == 32 * q + (r + 1);
    }
  }

  lemma FirstPower()
    ensures Power(Pow2(0)) == X2N(0)
  {
    assert Times(ONE, 1) == TimesX(Times(ONE, 0));
  }
}

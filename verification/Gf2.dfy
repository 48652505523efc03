/** Polynomials over GF(2) modulo the CRC polynomial, reflected: bit 31 is the coefficient of x^0. */
module Gf2 {
  import opened Checks

  const ONE: bv32 := 0x8000_0000

  const X: bv32 := 0x4000_0000

  /** The sum of two polynomials. */
  function Add(a: bv32, b: bv32): bv32 { a ^ b }

  /** x^n b modulo p. */
  function Times(b: bv32, n: nat): bv32 {
    if n == 0 then b else TimesX(Times(b, n - 1))
  }

  /** x^n modulo p. */
  function Power(n: nat): bv32 { Times(ONE, n) }

  /** b if `a` has the coefficient m. */
  function Term(a: bv32, b: bv32, m: bv32): bv32 {
    if a & m != 0 then b else 0
  }

  /** The sum of x^i b over the coefficients of `a` at or below the bit `m`. */
  function Products(a: bv32, b: bv32, m: bv32): bv32
    decreases m
  {
    if m == 0 then 0 else Add(Term(a, b, m), Products(a, TimesX(b), m >> 1))
  }

  /** a b modulo p, as the sum of x^i b over all coefficients of a. */
  function Product(a: bv32, b: bv32): bv32 { Products(a, b, ONE) }

  predicate OneBit(m: bv32) { m != 0 && m & (m - 1) == 0 }

  // ----- Sums -----

  lemma AddZero(a: bv32)
    ensures Add(a, 0) == a && Add(0, a) == a && Add(a, a) == 0
  {
  }

  lemma AddAssociates(a: bv32, b: bv32, c: bv32)
    ensures Add(Add(a, b), c) == Add(a, Add(b, c))
  {
  }

  lemma AddCommutes(a: bv32, b: bv32)
    ensures Add(a, b) == Add(b, a)
  {
  }

  lemma AddSwap(a: bv32, b: bv32, c: bv32, d: bv32)
    ensures Add(Add(a, b), Add(c, d)) == Add(Add(a, c), Add(b, d))
  {
    hide Add;
    AddAssociates(a, b, Add(c, d));
    AddAssociates(b, c, d);
    AddCommutes(b, c);
    AddAssociates(c, b, d);
    AddAssociates(a, c, Add(b, d));
  }

  // ----- Multiplication by x is linear and loses nothing -----

  lemma TermLinear(a: bv32, c: bv32, b: bv32, m: bv32)
    requires OneBit(m)
    ensures Term(Add(a, c), b, m) == Add(Term(a, b, m), Term(c, b, m))
  {
    assert ((a ^ c) & m != 0) <==> ((a & m != 0) != (c & m != 0));
  }

  lemma TimesXSum(a: bv32)
    ensures TimesX(a) == Add(a >> 1, Term(a, POLY, 1))
  {
    assert a & 1 == 1 || a & 1 == 0;
    AddZero(a >> 1);
  }

  lemma ShiftLinear(a: bv32, b: bv32)
    ensures Add(a, b) >> 1 == Add(a >> 1, b >> 1)
  {
    hide Add;
    AddIsXor(a, b);
    AddIsXor(a >> 1, b >> 1);
    ShiftXor(a, b, Add(a, b));
  }

  lemma AddIsXor(a: bv32, b: bv32)
    ensures Add(a, b) == a ^ b
  {
  }

  lemma ShiftXor(a: bv32, b: bv32, sum: bv32)
    requires sum == a ^ b
    ensures sum >> 1 == (a >> 1) ^ (b >> 1)
  {
  }

  lemma TimesXLinear(a: bv32, b: bv32)
    ensures TimesX(Add(a, b)) == Add(TimesX(a), TimesX(b))
  {
    hide Add, Term, TimesX;
    TimesXSum(a);
    TimesXSum(b);
    TimesXSum(Add(a, b));
    ShiftLinear(a, b);
    TermLinear(a, b, POLY, 1);
    AddSwap(a >> 1, b >> 1, Term(a, POLY, 1), Term(b, POLY, 1));
  }

  lemma TimesXNonzero(a: bv32)
    ensures TimesX(a) == 0 <==> a == 0
  {
  }

  lemma {:induction false} TimesLinear(a: bv32, b: bv32, n: nat)
    ensures Times(Add(a, b), n) == Add(Times(a, n), Times(b, n))
  {
    hide TimesX, Add;
    if n > 0 {
      TimesLinear(a, b, n - 1);
      TimesXLinear(Times(a, n - 1), Times(b, n - 1));
    }
  }

  lemma {:induction false} TimesZero(n: nat)
    ensures Times(0, n) == 0
  {
    if n > 0 {
      TimesZero(n - 1);
    }
  }

  lemma {:induction false} TimesAdd(b: bv32, m: nat, n: nat)
    ensures Times(b, m + n) == Times(Times(b, m), n)
  {
    hide TimesX;
    if n > 0 {
      TimesAdd(b, m, n - 1);
    }
  }

  lemma {:induction false} PowerNonzero(n: nat)
    ensures Power(n) != 0
  {
    hide TimesX;
    if n > 0 {
      PowerNonzero(n - 1);
      TimesXNonzero(Power(n - 1));
    }
  }

  // ----- The product is bilinear and commutes with x -----

  lemma HalfBit(m: bv32)
    requires OneBit(m)
    ensures if m == 1 then m >> 1 == 0 else OneBit(m >> 1)
  {
  }

  lemma TermRight(a: bv32, b: bv32, c: bv32, m: bv32)
    ensures Term(a, Add(b, c), m) == Add(Term(a, b, m), Term(a, c, m))
  {
    AddZero(0);
  }

  lemma {:induction false} LeftLinear(a: bv32, c: bv32, b: bv32, m: bv32)
    requires m == 0 || OneBit(m)
    ensures Products(Add(a, c), b, m) == Add(Products(a, b, m), Products(c, b, m))
    decreases m
  {
    hide TimesX, OneBit, Add, Term;
    if m == 0 {
      AddZero(0);
    } else {
      HalfBit(m);
      TermLinear(a, c, b, m);
      LeftLinear(a, c, TimesX(b), m >> 1);
      AddSwap(Term(a, b, m), Term(c, b, m), Products(a, TimesX(b), m >> 1), Products(c, TimesX(b), m >> 1));
    }
  }

  lemma {:induction false} RightLinear(a: bv32, b: bv32, c: bv32, m: bv32)
    ensures Products(a, Add(b, c), m) == Add(Products(a, b, m), Products(a, c, m))
    decreases m
  {
    hide TimesX, Add, Term;
    AddZero(0);
    if m != 0 {
      TermRight(a, b, c, m);
      TimesXLinear(b, c);
      RightLinear(a, TimesX(b), TimesX(c), m >> 1);
      AddSwap(Term(a, b, m), Term(a, c, m), Products(a, TimesX(b), m >> 1), Products(a, TimesX(c), m >> 1));
    }
  }

  lemma {:induction false} RightTimesX(a: bv32, b: bv32, m: bv32)
    ensures Products(a, TimesX(b), m) == TimesX(Products(a, b, m))
    decreases m
  {
    hide TimesX, Add;
    TimesXNonzero(0);
    if m != 0 {
      RightTimesX(a, TimesX(b), m >> 1);
      TimesXLinear(Term(a, b, m), Products(a, TimesX(b), m >> 1));
    }
  }

  /** Two products applied in either order. */
  lemma {:induction false} ProductsCommute(a: bv32, b: bv32, c: bv32, m: bv32)
    ensures Products(a, Product(b, c), m) == Product(b, Products(a, c, m))
    decreases m
  {
    hide TimesX, Product, Add;
    RightZero(b);
    if m != 0 {
      ProductTimesX(b, c);
      ProductsCommute(a, b, TimesX(c), m >> 1);
      ProductRightLinear(b, Term(a, c, m), Products(a, TimesX(c), m >> 1));
    }
  }

  lemma ProductTimesX(a: bv32, b: bv32)
    ensures Product(a, TimesX(b)) == TimesX(Product(a, b))
  {
    RightTimesX(a, b, ONE);
  }

  lemma ProductRightLinear(a: bv32, b: bv32, c: bv32)
    ensures Product(a, Add(b, c)) == Add(Product(a, b), Product(a, c))
  {
    hide Add, Products;
    RightLinear(a, b, c, ONE);
  }

  lemma RightZero(a: bv32)
    ensures Product(a, 0) == 0
  {
    hide Product, Add;
    ProductRightLinear(a, 0, 0);
    AddZero(0);
    AddZero(Product(a, 0));
  }

  /** The coefficients of a rebuild a. */
  lemma {:induction false} Rebuild(a: bv32, m: bv32)
    requires OneBit(m)
    ensures Products(a, m, m) == a & (m | (m - 1))
    decreases m
  {
    hide TimesX, OneBit, Add, Term;
    HalfBit(m);
    BitBelow(m);
    if m != 1 {
      Rebuild(a, m >> 1);
    }
    TopAndRest(a, m);
  }

  lemma BitBelow(m: bv32)
    requires OneBit(m)
    ensures m != 1 ==> TimesX(m) == m >> 1 && (m >> 1) | ((m >> 1) - 1) == m - 1
  {
  }

  lemma TopAndRest(a: bv32, m: bv32)
    requires OneBit(m)
    ensures Add(Term(a, m, m), a & (m - 1)) == a & (m | (m - 1))
  {
    assert a & m == 0 || a & m == m;
    assert Term(a, m, m) == a & m;
    SplitMask(a, m, m - 1);
  }

  lemma SplitMask(a: bv32, m: bv32, n: bv32)
    requires m & n == 0
    ensures (a & m) ^ (a & n) == a & (m | n)
  {
  }

  // ----- The ring laws -----

  lemma ProductOne(a: bv32)
    ensures Product(a, ONE) == a
  {
    Rebuild(a, ONE);
  }

  lemma ProductCommutes(a: bv32, b: bv32)
    ensures Product(a, b) == Product(b, a)
  {
    hide Products;
    ProductsCommute(a, b, ONE, ONE);
    ProductOne(a);
    ProductOne(b);
  }

  lemma ProductAssociates(a: bv32, b: bv32, c: bv32)
    ensures Product(Product(a, b), c) == Product(a, Product(b, c))
  {
    hide Products;
    ProductCommutes(Product(a, b), c);
    ProductsCommute(c, a, b, ONE);
    ProductCommutes(c, b);
  }

  lemma ProductDistributes(a: bv32, b: bv32, c: bv32)
    ensures Product(Add(a, b), c) == Add(Product(a, c), Product(b, c))
    ensures Product(c, Add(a, b)) == Add(Product(c, a), Product(c, b))
  {
    hide Add, Products;
    LeftLinear(a, b, c, ONE);
    ProductRightLinear(c, a, b);
  }

  /** A product with x^n is n multiplications by x. */
  lemma {:induction false} ProductPower(n: nat, b: bv32)
    ensures Product(Power(n), b) == Times(b, n)
  {
    hide TimesX, Product;
    ProductCommutes(Power(n), b);
    if n == 0 {
      ProductOne(b);
    } else {
      ProductCommutes(Power(n - 1), b);
      ProductPower(n - 1, b);
      ProductTimesX(b, Power(n - 1));
    }
  }

  lemma PowerSum(m: nat, n: nat)
    ensures Product(Power(m), Power(n)) == Power(m + n)
  {
    ProductPower(m, Power(n));
    TimesAdd(ONE, n, m);
  }
}

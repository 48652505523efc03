/** crc32.c: multiplication modulo p, powers of x, and the generated tables. */
module Crc32 {
  import opened Basics
  import opened Checks
  import opened Bits
  import opened Gf2
  import opened Frobenius
  import opened Braids
  import opened Words

  // ----- Multiplication -----

  lemma {:induction false} NoProducts(a: bv32, b: bv32, m: bv32)
    requires m == 0 || OneBit(m)
    requires a & (m | (m - 1)) == 0 || m == 0
    ensures Products(a, b, m) == 0
    decreases m
  {
    hide TimesX, Add, OneBit;
    if m != 0 {
      NoneBelow(a, m);
      HalfBit(m);
      NoProducts(a, TimesX(b), m >> 1);
      AddZero(0);
    }
  }

  lemma NoneBelow(a: bv32, m: bv32)
    requires OneBit(m) && a & (m | (m - 1)) == 0
    ensures a & m == 0 && (m >> 1 == 0 || a & ((m >> 1) | ((m >> 1) - 1)) == 0)
  {
  }

  lemma BelowIs(a: bv32, m: bv32)
    requires OneBit(m) && m != 1
    ensures a & ((m >> 1) | ((m >> 1) - 1)) == a & (m - 1)
  {
    BitBelow(m);
  }

  /** Some coefficient of `a` is at or below the bit m. */
  predicate Live(a: bv32, m: bv32) { OneBit(m) && a & (m | (m - 1)) != 0 }

  predicate Has(a: bv32, m: bv32) { a & m != 0 }

  predicate HasBelow(a: bv32, m: bv32) { a & (m - 1) != 0 }

  lemma StillLive(a: bv32, m: bv32)
    requires Live(a, m) && (!Has(a, m) || HasBelow(a, m))
    ensures Live(a, Half(m)) && Half(m) < m
  {
    hide OneBit;
    assert a & (m - 1) != 0;
    HalfBit(m);
    if m == 1 {
      assert false;
    }
    BelowIs(a, m);
    Smaller(m);
  }

  lemma Smaller(m: bv32)
    requires OneBit(m)
    ensures m >> 1 < m && m != 0
  {
  }

  lemma StartsLive(a: bv32)
    requires a != 0
    ensures Live(a, ONE)
  {
  }

  /** multmodp: a(x) b(x) modulo p(x), for a nonzero. */
  method MultModP(a: bv32, b: bv32) returns (p: bv32)
    requires a != 0
    ensures p == Product(a, b)
  {
    hide Live, Has, HasBelow, Half, Products, TimesX, Add;
    var m := ONE;
    var c := b;
    p := 0;
    StartsLive(a);
    AddZero(Products(a, b, m));
    while true
      invariant Live(a, m)
      invariant Add(p, Products(a, c, m)) == Product(a, b)
      decreases m
    {
      Unfolded(a, c, m);
      if Has(a, m) {
        AddAssociates(p, c, Products(a, TimesX(c), Half(m)));
        p := Add(p, c);
        if !HasBelow(a, m) {
          Finished(a, TimesX(c), m);
          AddZero(p);
          break;
        }
      }
      StillLive(a, m);
      m := Half(m);
      c := TimesX(c);
    }
  }

  lemma Unfolded(a: bv32, c: bv32, m: bv32)
    requires Live(a, m)
    ensures Products(a, c, m)
         == if Has(a, m) then Add(c, Products(a, TimesX(c), Half(m))) else Products(a, TimesX(c), Half(m))
  {
    hide TimesX, Add;
    AddZero(Products(a, TimesX(c), m >> 1));
  }

  lemma Finished(a: bv32, c: bv32, m: bv32)
    requires Live(a, m) && !HasBelow(a, m)
    ensures Products(a, c, Half(m)) == 0
  {
    hide TimesX, Add, Products;
    HalfBit(m);
    if m != 1 {
      BelowIs(a, m);
    }
    NoProducts(a, c, m >> 1);
  }

  // ----- Exponents -----

  /** x^(e 2^k). */
  function PowerOf(e: nat, k: nat): bv32 { Power(e * Pow2(k)) }

  lemma HalveExponent(e: nat, k: nat)
    ensures PowerOf(e, k)
         == if e % 2 == 1 then Product(Power(Pow2(k)), PowerOf(e / 2, k + 1)) else PowerOf(e / 2, k + 1)
  {
    hide Power, Product;
    var h, t := e / 2, Pow2(k);
    PowerSum(t, h * (2 * t));
    assert Pow2(k + 1) == 2 * t;
    assert h * (2 * t) == 2 * h * t;
    if e % 2 == 1 {
      assert e == 2 * h + 1;
      assert (2 * h + 1) * t == t + 2 * h * t;
    }
  }

  lemma Regrouped(t: bv32, p: bv32, q: bv32)
    ensures Product(p, Product(t, q)) == Product(Product(t, p), q)
  {
    hide Product;
    ProductAssociates(p, t, q);
    ProductCommutes(p, t);
  }

  // ----- Lookups -----

  function Index(c: byte): nat { c as int }

  function ToByte(i: nat): byte
    requires i < 256
  {
    i as byte
  }

  lemma IndexOfByte(c: byte)
    ensures Index(c) < 256 && ToByte(Index(c)) == c
  {
  }

  /** The coefficients x^0 to x^7. */
  function Top(c: byte): bv32 { (c as bv32) << 24 }

  lemma TopNonzero(i: nat)
    requires 0 < i < 256
    ensures Top(ToByte(i)) != 0
  {
    hide Top, ToByte;
    ByteNonzero(i);
    TopOfNonzero(ToByte(i));
  }

  lemma ByteNonzero(i: nat)
    requires 0 < i < 256
    ensures ToByte(i) != 0
  {
    hide ToByte;
    ToByteValue(i);
    ZeroByte(ToByte(i));
  }

  lemma ToByteValue(i: nat)
    requires i < 256
    ensures ToByte(i) as int == i
  {
    AsByte(i);
  }

  lemma TopOfNonzero(c: byte)
    requires c != 0
    ensures Top(c) != 0
  {
  }

  lemma TopByteBits(c: byte)
    ensures ((c as bv32) << 24) & 0xff == 0 && ((c as bv32) << 24) >> 8 == (c as bv32) << 16
    ensures ((c as bv32) << 16) & 0xff == 0 && ((c as bv32) << 16) >> 8 == (c as bv32) << 8
    ensures ((c as bv32) << 8) & 0xff == 0 && ((c as bv32) << 8) >> 8 == c as bv32
  {
  }

  /** A byte as the lowest powers, moved up to the highest. */
  lemma TopByteMoves(c: byte)
    ensures Times((c as bv32) << 24, 24) == c as bv32
  {
    hide Times, TimesX8;
    TopByteBits(c);
    EmptyByte((c as bv32) << 24);
    EmptyByte((c as bv32) << 16);
    EmptyByte((c as bv32) << 8);
    EightTimes((c as bv32) << 24);
    EightTimes((c as bv32) << 16);
    EightTimes((c as bv32) << 8);
    TimesAdd((c as bv32) << 24, 8, 8);
    TimesAdd((c as bv32) << 24, 16, 8);
  }

  /** An entry of a braid table: the byte after `n` more bytes. */
  lemma BraidEntry(c: byte, n: nat)
    ensures Product(Top(c), Power(8 * (n + 3))) == Zeros(c as bv32, n)
  {
    hide Times, Product;
    var v := Top(c);
    ProductCommutes(v, Power(8 * (n + 3)));
    ProductPower(8 * (n + 3), v);
    TimesAdd(v, 24, 8 * n);
    TopByteMoves(c);
  }

  lemma SwapOfZero(w: nat)
    ensures ByteSwap(w, Widen(0)) == 0
  {
  }

  /** What the braid tables hold. */
  function Entry(n: nat, w: nat, k: nat, c: byte): bv32
    requires k <= n * w
  {
    Zeros(c as bv32, n * w - k)
  }

  lemma RowInRange(n: nat, w: nat, k: nat)
    requires n >= 1 && k <= w
    ensures k <= n * w
  {
    assert n * w == (n - 1) * w + w;
  }

  class CrcTables {
    /** N braids of W-byte words. */
    const n: nat
    const w: nat
    const bytes: array<bv32>
    const bytesBig: array<bv64>
    const x2n: array<bv32>
    const braid: array2<bv32>
    const braidBig: array2<bv64>

    predicate Shape() {
      && n >= 1 && WordSize(w)
      && bytes.Length == 256 && bytesBig.Length == 256 && x2n.Length == 32 && bytes != x2n
      && braid.Length0 == w && braid.Length1 == 256 && braidBig.Length0 == w && braidBig.Length1 == 256
    }

    ghost predicate BytesMade(count: nat)
      requires Shape() && count <= 256
      reads bytes, bytesBig
    {
      forall i | 0 <= i < count ::
        bytes[i] == Table(ToByte(i)) && bytesBig[i] == ByteSwap(w, Widen(Table(ToByte(i))))
    }

    ghost predicate PowersMade(count: nat)
      requires Shape() && count <= 32
      reads x2n
    {
      forall k | 0 <= k < count :: x2n[k] == Power(Pow2(k))
    }

    ghost predicate RowMade(k: nat, count: nat)
      requires Shape() && k < w && count <= 256
      reads braid, braidBig
    {
      RowInRange(n, w, k);
      forall i | 0 <= i < count ::
        && braid[k, i] == Entry(n, w, k, ToByte(i))
        && braidBig[w - 1 - k, i] == ByteSwap(w, Widen(Entry(n, w, k, ToByte(i))))
    }

    ghost predicate BraidsMade(count: nat)
      requires Shape() && count <= w
      reads braid, braidBig
    {
      forall k | 0 <= k < count :: RowMade(k, 256)
    }

    /** The tables as make_crc_table leaves them. */
    ghost predicate Made()
      reads bytes, bytesBig, x2n, braid, braidBig
    {
      Shape() && BytesMade(256) && PowersMade(32) && BraidsMade(w)
    }

    constructor (braids: nat, wordSize: nat)
      requires braids >= 1 && WordSize(wordSize)
      ensures Shape() && n == braids && w == wordSize
      ensures fresh(bytes) && fresh(bytesBig) && fresh(x2n) && fresh(braid) && fresh(braidBig)
    {
      n, w := braids, wordSize;
      bytes := new bv32[256];
      bytesBig := new bv64[256];
      x2n := new bv32[32];
      braid := new bv32[wordSize, 256];
      braidBig := new bv64[wordSize, 256];
    }

    /** x2nmodp: x^(n 2^k) modulo p. */
    method X2nModP(exponent: nat, shift: nat) returns (p: bv32)
      requires Shape() && PowersMade(32)
      ensures p == PowerOf(exponent, shift)
    {
      hide Power, Product, Pow2, PowerOf, X2N;
      var e: nat, k: nat := exponent, shift;
      p := ONE;
      StartPower(e, k);
      while e != 0
        invariant Product(p, PowerOf(e, k)) == PowerOf(exponent, shift)
      {
        HalveExponent(e, k);
        if e % 2 == 1 {
          TablePower(k);
          TablePower(k % 32);
          PowerNonzero(Pow2(k));
          Regrouped(Power(Pow2(k)), p, PowerOf(e / 2, k + 1));
          p := MultModP(x2n[k % 32], p);
        }
        e := e / 2;
        k := k + 1;
      }
      EndPower(p, k);
    }

    method MakeBytes()
      requires Shape()
      modifies bytes, bytesBig
      ensures BytesMade(256)
    {
      hide Table, TimesX, ByteSwap, Widen, Times, ToByte;
      for i := 0 to 256
        invariant BytesMade(i)
      {
        var c := ToByte(i);
        var p: bv32 := c as bv32;
        TimesNone(p);
        for j := 0 to 8
          invariant p == Times(c as bv32, j)
          invariant BytesMade(i)
        {
          TimesNext(c as bv32, j);
          p := TimesX(p);
        }
        TableIs(c);
        bytes[i] := p;
        bytesBig[i] := ByteSwap(w, Widen(p));
      }
    }

    method MakePowers()
      requires Shape()
      modifies x2n
      ensures PowersMade(32)
    {
      hide Power, Product, Pow2;
      var p := X;
      x2n[0] := p;
      XIsFirst();
      for k := 1 to 32
        invariant p == Power(Pow2(k - 1))
        invariant PowersMade(k)
      {
        PowerNonzero(Pow2(k - 1));
        SquareOfPower(k - 1);
        p := MultModP(p, p);
        x2n[k] := p;
      }
    }

    method MakeBraids()
      requires Shape() && PowersMade(32)
      modifies braid, braidBig
      ensures BraidsMade(w)
    {
      hide RowMade, PowersMade;
      for k := 0 to w
        invariant BraidsMade(k)
        invariant PowersMade(32)
      {
        MakeRow(k);
      }
    }

    method MakeRow(k: nat)
      requires Shape() && PowersMade(32) && k < w
      modifies braid, braidBig
      ensures RowMade(k, 256)
      ensures forall i | 0 <= i < k && old(RowMade(i, 256)) :: RowMade(i, 256)
    {
      hide Power, PowerOf, Product, Pow2, Entry, ByteSwap, Widen, ToByte, Top;
      RowInRange(n, w, k);
      var m := n * w - k;
      var p := X2nModP((n * w + 3 - k) * 8, 0);
      Unshifted((n * w + 3 - k) * 8);
      assert (n * w + 3 - k) * 8 == 8 * (m + 3);
      braid[k, 0] := 0;
      braidBig[w - 1 - k, 0] := 0;
      EntryOfZero(n, w, k);
      for i := 1 to 256
        invariant RowMade(k, i)
        invariant forall r, c | 0 <= r < w && 0 <= c < 256 && r != k :: braid[r, c] == old(braid[r, c])
        invariant forall r, c | 0 <= r < w && 0 <= c < 256 && r != w - 1 - k :: braidBig[r, c] == old(braidBig[r, c])
      {
        var c := ToByte(i);
        TopNonzero(i);
        BraidEntry(c, m);
        var q := MultModP(Top(c), p);
        EntryIs(n, w, k, c);
        braid[k, i] := q;
        braidBig[w - 1 - k, i] := ByteSwap(w, Widen(q));
      }
    }

    /** make_crc_table. */
    method MakeCrcTable()
      requires Shape()
      modifies bytes, bytesBig, x2n, braid, braidBig
      ensures Made()
    {
      hide BytesMade, PowersMade, BraidsMade;
      MakeBytes();
      MakePowers();
      MakeBraids();
    }
  }

  lemma StartPower(e: nat, k: nat)
    ensures Product(ONE, PowerOf(e, k)) == PowerOf(e, k)
  {
    hide PowerOf, Product;
    ProductCommutes(ONE, PowerOf(e, k));
    ProductOne(PowerOf(e, k));
  }

  lemma EndPower(p: bv32, k: nat)
    ensures Product(p, PowerOf(0, k)) == p
  {
    hide Product;
    ProductOne(p);
  }

  lemma TimesNone(c: bv32)
    ensures Times(c, 0) == c
  {
  }

  lemma TimesNext(c: bv32, j: nat)
    ensures Times(c, j + 1) == TimesX(Times(c, j))
  {
  }

  lemma TableIs(c: byte)
    ensures Times(c as bv32, 8) == Table(c)
  {
    EightTimes(c as bv32);
  }

  lemma XIsFirst()
    ensures X == Power(Pow2(0))
  {
    FirstPower();
  }

  lemma Unshifted(e: nat)
    ensures PowerOf(e, 0) == Power(e)
  {
    assert e * Pow2(0) == e;
  }

  lemma EntryIs(n: nat, w: nat, k: nat, c: byte)
    requires k <= n * w
    ensures Entry(n, w, k, c) == Zeros(c as bv32, n * w - k)
  {
  }

  lemma EntryOfZero(n: nat, w: nat, k: nat)
    requires k <= n * w
    ensures Entry(n, w, k, ToByte(0)) == 0 && ByteSwap(w, Widen(Entry(n, w, k, ToByte(0)))) == 0
  {
    hide Zeros;
    ZerosOfZero(n * w - k);
    SwapOfZero(w);
  }
}

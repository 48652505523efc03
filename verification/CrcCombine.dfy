/** crc32.c: crc32_combine64, crc32_combine_gen64 and crc32_combine_op. */
module CrcCombine {
  import opened Basics
  import opened Checks
  import opened Gf2
  import opened Braids
  import opened Crc32

  /** Two CRCs combined by an operator. */
  function Combination(op: bv32, crc1: bv32, crc2: bv32): bv32 { Add(Product(op, crc1), crc2) }

  const ALL: bv32 := 0xffff_ffff

  lemma FlipIsAdd(c: bv32)
    ensures Flip(c) == Add(c, ALL)
  {
  }

  lemma OperatorIsZeros(c: bv32, n: nat)
    ensures Product(PowerOf(n, 3), c) == Zeros(c, n)
  {
    hide Product, Power, Times;
    assert Pow2(1) == 2 && Pow2(2) == 4 && Pow2(3) == 8;
    ProductPower(8 * n, c);
  }

  /** With the operator of |b|, the CRCs of a and b combine to the CRC of a followed by b. */
  lemma Homomorphism(start: bv32, a: seq<byte>, b: seq<byte>)
    ensures Combination(PowerOf(|b|, 3), Crc(start, a), Crc(0, b)) == Crc(start, a + b)
  {
    hide Product, PowerOf, Zeros, Add, Flip, CrcRegister;
    var c, f, n := Crc(start, a), Flip(0), |b|;
    CrcAppend(start, a, b);
    OperatorIsZeros(c, n);
    var r := CrcRegister(0, b);
    RegisterSplits(Flip(c), b);
    RegisterSplits(f, b);
    FlipIsAdd(c);
    FlipIsAdd(0);
    AddZero(ALL);
    ZerosLinear(c, ALL, n);
    FlipIsAdd(CrcRegister(Flip(c), b));
    FlipIsAdd(CrcRegister(f, b));
    var z, y := Zeros(c, n), Zeros(ALL, n);
    AddAssociates(z, y, r);
    AddAssociates(z, Add(y, r), ALL);
  }

  method CombineGen(t: CrcTables, len2: nat) returns (op: bv32)
    requires t.Made()
    ensures op == PowerOf(len2, 3) && op != 0
  {
    hide Power;
    PowerNonzero(len2 * Pow2(3));
    op := t.X2nModP(len2, 3);
  }

  method CombineOp(crc1: bv32, crc2: bv32, op: bv32) returns (r: bv32)
    requires op != 0
    ensures r == Combination(op, crc1, crc2)
  {
    hide Product, Add;
    var p := MultModP(op, crc1);
    r := Add(p, crc2);
  }

  /** The CRCs of two parts give the CRC of their concatenation, in one call or through the generated operator. */
  method Combine(t: CrcTables, crc1: bv32, crc2: bv32, len2: nat) returns (r: bv32)
    requires t.Made()
    ensures r == Combination(PowerOf(len2, 3), crc1, crc2)
    ensures forall start: bv32, a: seq<byte>, b: seq<byte>
              | crc1 == Crc(start, a) && crc2 == Crc(0, b) && len2 == |b| :: r == Crc(start, a + b)
  {
    hide Power, Product, Add, Crc;
    PowerNonzero(len2 * Pow2(3));
    var op := t.X2nModP(len2, 3);
    var p := MultModP(op, crc1);
    r := Add(p, crc2);
    forall start: bv32, a: seq<byte>, b: seq<byte> | crc1 == Crc(start, a) && crc2 == Crc(0, b) && len2 == |b|
      ensures r == Crc(start, a + b)
    {
      Homomorphism(start, a, b);
    }
  }
}

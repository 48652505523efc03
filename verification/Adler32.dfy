/** adler32.c: Adler-32 with deferred reductions, and the combination of two check values. */
module Adler32 {
  import opened Basics
  import opened Checks
  import Memory

  const NMAX: nat := 5552

  function Low(adler: nat): nat { adler % 65536 }

  function High(adler: nat): nat { adler / 65536 % 65536 }

  /** A value that Adler-32 can produce: both sums are reduced. */
  predicate Reduced(adler: nat) {
    adler < UINT32 && Low(adler) < BASE && High(adler) < BASE
  }

  /** The residue of a modulo BASE. */
  function Residue(a: int): nat { a % BASE }

  /** The two running sums stand for the check value `adler`, before reduction. */
  predicate Stands(sum1: nat, sum2: nat, adler: nat) {
    Residue(sum1) == Residue(Low(adler)) && Residue(sum2) == Residue(High(adler))
  }

  // ----- Facts about the per-byte definition -----

  lemma ModAdd(a: int, b: int, c: int)
    requires Residue(a) == Residue(b)
    ensures Residue(a + c) == Residue(b + c)
  {
    var k := a / BASE - b / BASE;
    assert a + c == b + c + k * BASE;
  }

  lemma MultipleVanishes(k: int, c: int)
    ensures Residue(k * BASE + c) == Residue(c)
  {
  }

  lemma ResidueTwice(a: int)
    ensures Residue(a) < BASE && Residue(Residue(a)) == Residue(a)
  {
  }

  lemma ResidueSmall(a: int)
    requires 0 <= a < BASE
    ensures Residue(a) == a
  {
  }

  lemma ByteParts(adler: nat, c: byte)
    ensures Reduced(AdlerByte(adler, c))
    ensures Low(AdlerByte(adler, c)) == Residue(Low(adler) + c as int)
    ensures High(AdlerByte(adler, c)) == Residue(High(adler) + Low(AdlerByte(adler, c)))
    ensures AdlerByte(adler, c) == Pack(Low(AdlerByte(adler, c)), High(AdlerByte(adler, c)))
  {
    var s1 := (adler % 65536 + c as int) % BASE;
    var s2 := (adler / 65536 % 65536 + s1) % BASE;
    assert (s2 * 65536 + s1) / 65536 == s2;
  }

  lemma ReducedAfter(adler: nat, data: seq<byte>)
    requires Reduced(adler) || data != []
    ensures Reduced(Adler(adler, data))
  {
    if data != [] {
      ByteParts(Adler(adler, data[..|data| - 1]), data[|data| - 1]);
    }
  }

  lemma StandsByte(sum1: nat, sum2: nat, adler: nat, c: byte)
    requires Stands(sum1, sum2, adler)
    ensures Stands(sum1 + c as int, sum2 + (sum1 + c as int), AdlerByte(adler, c))
  {
    hide Residue, AdlerByte, Low, High, Reduced;
    ByteParts(adler, c);
    var a := AdlerByte(adler, c);
    ModAdd(sum1, Low(adler), c as int);
    ResidueTwice(Low(adler) + c as int);
    ResidueTwice(High(adler) + Low(a));
    ModAdd(sum2, High(adler), sum1 + c as int);
    ModAdd(sum1 + c as int, Low(a), High(adler));
  }

  lemma Recombined(sum1: nat, sum2: nat, adler: nat)
    requires Stands(sum1, sum2, adler) && Reduced(adler)
    ensures Pack(Residue(sum1), Residue(sum2)) == adler
  {
    ResidueSmall(Low(adler));
    ResidueSmall(High(adler));
  }

  /** `adler | (sum2 << 16)` for sums below 65536. */
  function Pack(sum1: nat, sum2: nat): nat { sum2 * 65536 + sum1 }

  /** NMAX is the largest block whose sums stay below 2^32 when both start reduced. */
  lemma NmaxIsLargest(n: nat)
    ensures n <= NMAX <==> 255 * (n * (n + 1)) / 2 + (n + 1) * (BASE - 1) < UINT32
  {
    if n <= NMAX {
      Triangle(n, NMAX);
    } else {
      Triangle(NMAX + 1, n);
    }
  }

  lemma Triangle(n: nat, m: nat)
    requires n <= m
    ensures n * (n + 1) <= m * (m + 1)
  {
    Memory.MulMono(n, m, n + 1);
    Memory.MulMono(n + 1, m + 1, m);
  }

  // ----- NO_DIVIDE -----

  /** CHOP: 65536 is 15 modulo BASE. */
  method Chop(a: nat) returns (r: nat)
    ensures Residue(r) == Residue(a)
    ensures r == a % 65536 + 15 * (a / 65536)
  {
    var tmp := a / 65536;
    r := a % 65536;
    r := r + (tmp * 16 - tmp);
    assert a == tmp * BASE + r;
    MultipleVanishes(tmp, r);
  }

  method Mod28NoDivide(a: nat) returns (r: nat)
    requires a < 0x1000_0000
    ensures r == Residue(a)
  {
    r := Chop(a);
    if r >= BASE {
      r := r - BASE;
    }
  }

  method ModNoDivide(a: nat) returns (r: nat)
    requires a < UINT32
    ensures r == Residue(a)
  {
    r := Chop(a);
    r := Mod28NoDivide(r);
  }

  method Mod63NoDivide(a: nat) returns (r: nat)
    requires a < 0x8000_0000_0000_0000
    ensures r == Residue(a)
  {
    var tmp := a / UINT32;
    r := a % UINT32;
    r := r + (tmp * 256 - tmp * 32 + tmp);
    assert a == (65551 * tmp) * BASE + r;
    MultipleVanishes(65551 * tmp, r);
    hide Residue;
    r := Chop(r);
    r := Chop(r);
    SmallResidue(r);
    if r >= BASE {
      r := r - BASE;
    }
  }

  // ----- MOD, MOD28 and MOD63 in either build -----

  method Mod(noDivide: bool, a: nat) returns (r: nat)
    requires a < UINT32
    ensures r == Residue(a)
  {
    if noDivide { r := ModNoDivide(a); } else { r := a % BASE; }
  }

  method Mod28(noDivide: bool, a: nat) returns (r: nat)
    requires a < 0x1000_0000
    ensures r == Residue(a)
  {
    if noDivide { r := Mod28NoDivide(a); } else { r := a % BASE; }
  }

  method Mod63(noDivide: bool, a: nat) returns (r: nat)
    requires a < 0x8000_0000_0000_0000
    ensures r == Residue(a)
  {
    if noDivide { r := Mod63NoDivide(a); } else { r := a % BASE; }
  }

  // ----- adler32_z -----

  /** The largest sums after n bytes from sums that fit in 16 bits. */
  predicate Bounded(sum1: nat, sum2: nat, n: nat) {
    sum1 <= 65535 + 255 * n && 2 * sum2 <= 131070 * (n + 1) + 255 * (n * (n + 1))
  }

  lemma BoundedByte(sum1: nat, sum2: nat, n: nat, c: byte)
    requires Bounded(sum1, sum2, n)
    ensures Bounded(sum1 + c as int, sum2 + (sum1 + c as int), n + 1)
  {
    assert (n + 1) * (n + 2) == n * (n + 1) + 2 * (n + 1);
  }

  lemma BoundedFits(sum1: nat, sum2: nat, n: nat)
    requires Bounded(sum1, sum2, n) && n <= NMAX
    ensures sum1 < UINT32 && sum2 < UINT32
    ensures n < 16 ==> sum1 < 2 * BASE && sum2 < 0x1000_0000
  {
    Triangle(n, NMAX);
    if n < 16 {
      Triangle(n, 15);
    }
  }

  /** DO1 over bytes i .. i + k: the 32-bit sums never overflow within a block of NMAX bytes. */
  method Sum(buf: array<byte>, i: nat, k: nat, start: uint32, adler: uint32, sum2: uint32, ghost n: nat)
      returns (a: uint32, s: uint32)
    requires i + k <= buf.Length && n + k <= NMAX
    requires Bounded(adler, sum2, n)
    requires Stands(adler, sum2, Adler(start, buf[..i]))
    ensures Bounded(a, s, n + k)
    ensures Stands(a, s, Adler(start, buf[..i + k]))
  {
    hide Stands, Bounded, Adler, AdlerByte;
    a, s := adler, sum2;
    for j := 0 to k
      invariant Bounded(a, s, n + j)
      invariant Stands(a, s, Adler(start, buf[..i + j]))
    {
      StandsByte(a, s, Adler(start, buf[..i + j]), buf[i + j]);
      BoundedByte(a, s, n + j, buf[i + j]);
      AdlerNext(start, buf[..], i + j);
      assert buf[..][..i + j] == buf[..i + j] && buf[..][..i + j + 1] == buf[..i + j + 1];
      BoundedFits(a + buf[i + j] as int, s + (a + buf[i + j] as int), n + j + 1);
      a := a + buf[i + j] as int;
      s := s + a;
    }
  }

  lemma AdlerNext(start: nat, data: seq<byte>, i: nat)
    requires i < |data|
    ensures Adler(start, data[..i + 1]) == AdlerByte(Adler(start, data[..i]), data[i])
  {
    assert data[..i + 1][..i] == data[..i];
  }

  /** When the code returns the per-byte value: always from two bytes on, otherwise unless an unreduced sum survives. */
  predicate Agrees(adler: nat, data: seq<byte>) {
    match |data|
    case 0 => Reduced(adler)
    case 1 => High(adler) + Residue(Low(adler) + data[0] as int) < 2 * BASE
    case _ => true
  }

  lemma ReducedAgrees(adler: nat, data: seq<byte>)
    requires Reduced(adler)
    ensures Agrees(adler, data)
  {
  }

  /** adler32_z: the per-byte value for every reduced start, and exactly when it is not for the others. */
  method Adler32Z(noDivide: bool, start: uint32, buf: array?<byte>, length: nat) returns (r: nat)
    requires length == 1 ==> buf != null
    requires buf != null ==> length <= buf.Length
    ensures buf == null ==> r == 1
    ensures buf != null ==> (r == Adler(start, buf[..length]) <==> Agrees(start, buf[..length]))
    ensures buf != null && Reduced(start) ==> r == Adler(start, buf[..length])
  {
    hide Adler, AdlerByte, Residue;
    if buf != null && Reduced(start) { ReducedAgrees(start, buf[..length]); }
    var sum2: uint32 := start / 65536 % 65536;
    var adler: uint32 := start % 65536;
    if length == 1 {
      r := OneByte(start, adler, sum2, buf[0]);
      assert buf[..1][..0] == [] && buf[..1][0] == buf[0];
      AdlerNext(start, buf[..1], 0);
      assert buf[..1][..1] == buf[..1];
      AdlerEmpty(start);
      return;
    }
    if buf == null {
      return 1;
    }
    AdlerEmpty(start);
    assert buf[..0] == [];
    if length < 16 {
      r := ShortRun(noDivide, start, buf, length, adler, sum2);
      return;
    }
    r := LongRun(noDivide, start, buf, length, adler, sum2);
  }

  /** Starting values that are no check values, where the code does not return the per-byte value. */
  method UnreducedStart(noDivide: bool) returns (zero: nat, one: nat)
    ensures zero != Adler(0xffff_ffff, []) && one != Adler(0xffff_fff0, [0])
  {
    hide Adler;
    var buf := new byte[1][0];
    zero := Adler32Z(noDivide, 0xffff_ffff, buf, 0);
    one := Adler32Z(noDivide, 0xffff_fff0, buf, 1);
    assert buf[..0] == [] && buf[..1] == [0];
    NotReduced();
  }

  lemma NotReduced()
    ensures !Agrees(0xffff_ffff, []) && !Agrees(0xffff_fff0, [0])
  {
    ZeroByte();
    assert Residue(65520) == 65520;
  }

  lemma ZeroByte()
    ensures (0 as byte) as int == 0
  {
  }

  lemma AdlerEmpty(start: nat)
    ensures Adler(start, []) == start
  {
  }

  lemma StartStands(start: nat)
    ensures Stands(Low(start), High(start), start) && Bounded(Low(start), High(start), 0)
  {
  }

  lemma PackSecond(sum1: nat, a: nat, b: nat)
    ensures Pack(sum1, a) == Pack(sum1, b) <==> a == b
  {
  }

  lemma PackIsReduced(sum1: nat, sum2: nat)
    requires sum1 < BASE && sum2 < BASE
    ensures Reduced(Pack(sum1, sum2))
  {
  }

  /** The branch for len == 1. */
  method OneByte(start: uint32, sum1: nat, sum2: nat, c: byte) returns (r: nat)
    requires sum1 == Low(start) < 65536 && sum2 == High(start) < 65536
    ensures r == AdlerByte(start, c) <==> High(start) + Residue(Low(start) + c as int) < 2 * BASE
  {
    hide AdlerByte, Reduced, Pack, Residue, Low, High;
    ByteParts(start, c);
    var adler, sum := sum1 + c as int, sum2;
    SmallResidue(adler);
    if adler >= BASE {
      adler := adler - BASE;
    }
    sum := sum + adler;
    ghost var whole := sum;
    ResidueTwice(whole);
    if whole < 2 * BASE {
      SmallResidue(whole);
    }
    if sum >= BASE {
      sum := sum - BASE;
    }
    r := Pack(adler, sum);
    PackSecond(adler, sum, Residue(whole));
  }

  /** The branch for len < 16. */
  method ShortRun(noDivide: bool, start: uint32, buf: array<byte>, length: nat, sum1: uint32, sum2: uint32)
      returns (r: nat)
    requires length < 16 && length <= buf.Length
    requires sum1 == Low(start) && sum2 == High(start)
    ensures r == Adler(start, buf[..length]) <==> length > 0 || Reduced(start)
  {
    hide Adler, AdlerByte, Stands, Bounded, Residue, Reduced, Pack;
    AdlerEmpty(start);
    assert buf[..0] == [];
    StartStands(start);
    hide Low, High;
    var adler, sum := Sum(buf, 0, length, start, sum1, sum2, 0);
    BoundedFits(adler, sum, length);
    ghost var whole1, whole2 := adler, sum;
    SmallResidue(adler);
    if adler >= BASE {
      adler := adler - BASE;
    }
    sum := Mod28(noDivide, sum);
    r := Pack(adler, sum);
    if length > 0 || Reduced(start) {
      ReducedAfter(start, buf[..length]);
      Recombined(whole1, whole2, Adler(start, buf[..length]));
    } else {
      ResidueTwice(whole1);
      ResidueTwice(whole2);
      PackIsReduced(adler, sum);
    }
  }

  lemma SmallResidue(a: nat)
    requires a < 2 * BASE
    ensures Residue(a) == if a >= BASE then a - BASE else a
  {
  }

  /** Blocks of NMAX bytes with one reduction each, then the remainder. */
  method LongRun(noDivide: bool, start: uint32, buf: array<byte>, length: nat, sum1: uint32, sum2: uint32)
      returns (r: nat)
    requires 16 <= length <= buf.Length
    requires sum1 == Low(start) && sum2 == High(start)
    ensures r == Adler(start, buf[..length])
  {
    hide Adler, AdlerByte, Stands, Residue;
    var adler: uint32, sum: uint32 := sum1, sum2;
    var i: nat := 0;
    AdlerEmpty(start);
    assert buf[..0] == [];
    StartStands(start);
    while length - i >= NMAX
      invariant i <= length
      invariant adler < 65536 && sum < 65536
      invariant i == length ==> adler == Residue(adler) && sum == Residue(sum)
      invariant Stands(adler, sum, Adler(start, buf[..i]))
    {
      adler, sum := Sixteens(buf, i, NMAX / 16, start, adler, sum);
      i := i + NMAX;
      adler, sum := ReduceBoth(noDivide, adler, sum, Adler(start, buf[..i]));
    }
    if i < length {
      var rest := length - i;
      adler, sum := Sixteens(buf, i, rest / 16, start, adler, sum);
      adler, sum := Sum(buf, i + rest / 16 * 16, rest % 16, start, adler, sum, rest / 16 * 16);
      adler, sum := ReduceBoth(noDivide, adler, sum, Adler(start, buf[..length]));
    }
    ReducedAfter(start, buf[..length]);
    Recombined(adler, sum, Adler(start, buf[..length]));
    r := Pack(adler, sum);
  }

  method ReduceBoth(noDivide: bool, adler: uint32, sum: uint32, ghost check: nat) returns (a: uint32, s: uint32)
    requires Stands(adler, sum, check)
    ensures Stands(a, s, check)
    ensures a < BASE && s < BASE && Residue(a) == a && Residue(s) == s
  {
    a := Mod(noDivide, adler);
    s := Mod(noDivide, sum);
  }

  /** DO16 repeated `count` times. */
  method Sixteens(buf: array<byte>, i: nat, count: nat, start: uint32, adler: uint32, sum2: uint32)
      returns (a: uint32, s: uint32)
    requires i + 16 * count <= buf.Length && 16 * count <= NMAX
    requires adler < 65536 && sum2 < 65536
    requires Stands(adler, sum2, Adler(start, buf[..i]))
    ensures Bounded(a, s, 16 * count)
    ensures Stands(a, s, Adler(start, buf[..i + 16 * count]))
  {
    hide Adler, AdlerByte, Stands;
    a, s := adler, sum2;
    for n := 0 to count
      invariant Bounded(a, s, 16 * n)
      invariant Stands(a, s, Adler(start, buf[..i + 16 * n]))
    {
      hide Bounded;
      a, s := Sum(buf, i + 16 * n, 16, start, a, s, 16 * n);
    }
  }

  // ----- adler32_combine_ -----

  /** Starting from `adler` instead of 1 shifts the first sum, and the second once per byte. */
  lemma {:induction false} StartShift(adler: nat, data: seq<byte>)
    ensures Residue(Low(Adler(adler, data))) == Residue(Low(Adler(1, data)) + (Low(adler) - 1))
    ensures Residue(High(Adler(adler, data)))
         == Residue(High(Adler(1, data)) + (High(adler) + |data| * (Low(adler) - 1)))
  {
    hide Residue, AdlerByte, Low, High;
    if data == [] {
      PartsOfOne();
    } else {
      var front, c := data[..|data| - 1], data[|data| - 1];
      StartShift(adler, front);
      var d: int := Low(adler) - 1;
      ShiftByte(Adler(adler, front), Adler(1, front), c, d, High(adler) + |front| * d);
      assert High(adler) + |front| * d + d == High(adler) + |data| * d;
    }
  }

  lemma PartsOfOne()
    ensures Low(1) == 1 && High(1) == 0
  {
  }

  lemma ShiftByte(a: nat, b: nat, c: byte, d1: int, d2: int)
    requires Residue(Low(a)) == Residue(Low(b) + d1)
    requires Residue(High(a)) == Residue(High(b) + d2)
    ensures Residue(Low(AdlerByte(a, c))) == Residue(Low(AdlerByte(b, c)) + d1)
    ensures Residue(High(AdlerByte(a, c))) == Residue(High(AdlerByte(b, c)) + (d2 + d1))
  {
    hide AdlerByte, Low, High, Residue, Reduced;
    ByteParts(a, c);
    ByteParts(b, c);
    var a1, b1 := Low(AdlerByte(a, c)), Low(AdlerByte(b, c));
    ResidueTwice(Low(a) + c as int);
    ResidueTwice(Low(b) + c as int);
    ResidueTwice(High(a) + a1);
    ResidueTwice(High(b) + b1);
    ModAdd(Low(a), Low(b) + d1, c as int);
    ModAdd(b1, Low(b) + c as int, d1);
    ModAdd(High(a), High(b) + d2, a1);
    ModAdd(a1, b1 + d1, High(b) + d2);
    ModAdd(High(AdlerByte(b, c)), High(b) + b1, d2 + d1);
  }

  /** adler32_combine_: the check values of two parts give the check value of their concatenation. */
  method Combine(noDivide: bool, adler1: uint32, adler2: uint32, len2: int) returns (r: nat)
    requires -0x8000_0000_0000_0000 <= len2 < 0x8000_0000_0000_0000
    ensures len2 < 0 ==> r == 0xffff_ffff
    ensures forall a: seq<byte>, b: seq<byte> | |b| == len2 && adler1 == Adler(1, a) && adler2 == Adler(1, b) ::
              r == Adler(1, a + b)
    ensures forall data: seq<byte> | |data| == len2 && Reduced(adler1) && adler2 == Adler(1, data) ::
              r == Adler(adler1, data)
  {
    hide Adler, Residue, Stands, Reduced;
    if len2 < 0 {
      return 0xffff_ffff;
    }
    var rem := Mod63(noDivide, len2);
    ResidueTwice(len2);
    var sum1: nat := Low(adler1);
    var product := rem * sum1;
    ProductFits(rem, sum1);
    var sum2 := Mod(noDivide, product);
    ResidueTwice(product);
    sum1 := sum1 + Low(adler2) + BASE - 1;
    sum2 := sum2 + High(adler1) + High(adler2) + BASE - rem;
    r := Reduce(sum1, sum2);
    forall data: seq<byte> | |data| == len2 && Reduced(adler1) && adler2 == Adler(1, data)
      ensures r == Adler(adler1, data)
    {
      CombinedSums(adler1, data, rem, sum1, sum2);
      PartsOfOne();
      StartReduced(1);
      ReducedAfter(1, data);
      ReducedAfter(adler1, data);
      ReducedParts(adler1);
      ReducedParts(adler2);
      Recombined(sum1, sum2, Adler(adler1, data));
    }
    forall a: seq<byte>, b: seq<byte> | |b| == len2 && adler1 == Adler(1, a) && adler2 == Adler(1, b)
      ensures r == Adler(1, a + b)
    {
      StartReduced(1);
      ReducedAfter(1, a);
      AdlerAppend(1, a, b);
    }
  }

  lemma ProductFits(a: nat, b: nat)
    requires a < BASE && b < 65536
    ensures a * b < UINT32
  {
    Memory.MulMono(a, BASE, b);
  }

  lemma StartReduced(adler: nat)
    requires adler < BASE
    ensures Reduced(adler)
  {
  }

  lemma ReducedParts(adler: nat)
    requires Reduced(adler)
    ensures Low(adler) < BASE && High(adler) < BASE
  {
  }

  /** The subtractions at the end of adler32_combine_: enough whenever both check values were reduced. */
  method Reduce(whole1: nat, whole2: nat) returns (r: nat)
    ensures whole1 < 3 * BASE && whole2 < 4 * BASE ==> r == Pack(Residue(whole1), Residue(whole2))
  {
    var sum1, sum2 := whole1, whole2;
    if sum1 >= BASE {
      sum1 := sum1 - BASE;
    }
    if sum1 >= BASE {
      sum1 := sum1 - BASE;
    }
    if sum2 >= BASE * 2 {
      sum2 := sum2 - BASE * 2;
    }
    if sum2 >= BASE {
      sum2 := sum2 - BASE;
    }
    r := Pack(sum1, sum2);
  }

  lemma CombinedSums(adler1: nat, data: seq<byte>, rem: nat, sum1: nat, sum2: nat)
    requires rem == Residue(|data|)
    requires sum1 == Low(adler1) + Low(Adler(1, data)) + BASE - 1
    requires sum2 == Residue(rem * Low(adler1)) + High(adler1) + High(Adler(1, data)) + BASE - rem
    ensures Stands(sum1, sum2, Adler(adler1, data))
  {
    hide Adler, Low, High, Residue;
    StartShift(adler1, data);
    MultipleVanishes(1, Low(adler1) + Low(Adler(1, data)) - 1);
    var rest := High(adler1) + High(Adler(1, data));
    var k := TimesLength(|data|, Low(adler1));
    var product: int := rem * Low(adler1);
    MultipleVanishes(k, product - rem + rest);
    ResidueTwice(product);
    ModAdd(Residue(product), product, rest + BASE - rem);
    MultipleVanishes(1, product + rest - rem);
  }

  /** The length may be reduced before it is multiplied. */
  lemma TimesLength(n: nat, low: nat) returns (k: int)
    ensures n * (low - 1) == k * BASE + Residue(n) * low - Residue(n)
  {
    var q := n / BASE;
    var d: int := low - 1;
    k := q * d;
    var rem := Residue(n);
    assert n == q * BASE + rem;
    hide Residue;
    Distribute(q, rem, d);
    assert rem * d == rem * low - rem;
  }

  lemma Distribute(q: nat, rem: nat, d: int)
    ensures (q * BASE + rem) * d == q * d * BASE + rem * d
  {
  }
}

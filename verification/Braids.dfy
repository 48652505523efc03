/** Why a braided CRC is the CRC: the register is linear, so N sparse registers add up to one. */
module Braids {
  import opened Basics
  import opened Checks
  import opened Gf2

  /** The register after n zero bytes. */
  function Zeros(c: bv32, n: nat): bv32 { Times(c, 8 * n) }

  lemma EightTimes(c: bv32)
    ensures TimesX8(c) == Times(c, 8)
  {
    hide TimesX;
    assert Times(c, 1) == TimesX(Times(c, 0)) && Times(c, 2) == TimesX(Times(c, 1));
    assert Times(c, 3) == TimesX(Times(c, 2)) && Times(c, 4) == TimesX(Times(c, 3));
    assert Times(c, 5) == TimesX(Times(c, 4)) && Times(c, 6) == TimesX(Times(c, 5));
    assert Times(c, 7) == TimesX(Times(c, 6)) && Times(c, 8) == TimesX(Times(c, 7));
  }

  lemma ByteIsZeros(c: bv32, b: byte)
    ensures CrcByte(c, b) == Zeros(Add(c, b as bv32), 1)
  {
    hide TimesX8, TimesX;
    EightTimes(c ^ (b as bv32));
  }

  lemma ZerosAdd(c: bv32, m: nat, n: nat)
    ensures Zeros(Zeros(c, m), n) == Zeros(c, m + n)
  {
    TimesAdd(c, 8 * m, 8 * n);
  }

  lemma ZerosLinear(a: bv32, b: bv32, n: nat)
    ensures Zeros(Add(a, b), n) == Add(Zeros(a, n), Zeros(b, n))
  {
    hide Add, Times;
    TimesLinear(a, b, 8 * n);
  }

  lemma ZerosOfZero(n: nat)
    ensures Zeros(0, n) == 0
  {
    TimesZero(8 * n);
  }

  lemma NoZeros(c: bv32)
    ensures Zeros(c, 0) == c
  {
  }

  /** The starting register and the data contribute independently. */
  lemma {:induction false} RegisterSplits(c: bv32, data: seq<byte>)
    ensures CrcRegister(c, data) == Add(Zeros(c, |data|), CrcRegister(0, data))
  {
    hide Add, CrcByte, Zeros;
    if data == [] {
      NoZeros(c);
      AddZero(c);
    } else {
      var front, b := data[..|data| - 1], data[|data| - 1];
      RegisterSplits(c, front);
      var z, r := Zeros(c, |front|), CrcRegister(0, front);
      ByteIsZeros(Add(z, r), b);
      ByteIsZeros(r, b);
      AddAssociates(z, r, b as bv32);
      ZerosLinear(z, Add(r, b as bv32), 1);
      ZerosAdd(c, |front|, 1);
    }
  }

  lemma RegisterConcat(a: seq<byte>, b: seq<byte>)
    ensures CrcRegister(0, a + b) == Add(Zeros(CrcRegister(0, a), |b|), CrcRegister(0, b))
  {
    hide Add, CrcRegister, Zeros;
    CrcRegisterAppend(0, a, b);
    RegisterSplits(CrcRegister(0, a), b);
  }

  // ----- Braids -----

  /** The registers of the braids as one: register j enters before word j of the next block. */
  function Spread(crcs: seq<bv32>, w: nat): bv32 {
    if crcs == [] then 0 else Add(Zeros(crcs[0], |crcs| * w), Spread(crcs[1..], w))
  }

  lemma {:induction false} SpreadOfZeros(crcs: seq<bv32>, w: nat)
    requires forall j | 0 <= j < |crcs| :: crcs[j] == 0
    ensures Spread(crcs, w) == 0
  {
    if crcs != [] {
      ZerosOfZero(|crcs| * w);
      SpreadOfZeros(crcs[1..], w);
      AddZero(0);
    }
  }

  /** At first only the first braid holds a register. */
  lemma SpreadStarts(crcs: seq<bv32>, w: nat)
    requires crcs != [] && forall j | 1 <= j < |crcs| :: crcs[j] == 0
    ensures Spread(crcs, w) == Zeros(crcs[0], |crcs| * w)
  {
    hide Zeros, Add;
    SpreadOfZeros(crcs[1..], w);
    AddZero(Zeros(crcs[0], |crcs| * w));
  }

  /** The data of the words of a block. */
  function Joined(words: seq<seq<byte>>): (r: seq<byte>) {
    if words == [] then [] else words[0] + Joined(words[1..])
  }

  predicate Sized(words: seq<seq<byte>>, w: nat) {
    forall j | 0 <= j < |words| :: |words[j]| == w
  }

  lemma {:induction false} JoinedLength(words: seq<seq<byte>>, w: nat)
    requires Sized(words, w)
    ensures |Joined(words)| == |words| * w
  {
    if words != [] {
      JoinedLength(words[1..], w);
    }
  }

  /** Register j after its word and then `gap` zero bytes. */
  predicate Stepped(next: seq<bv32>, crcs: seq<bv32>, words: seq<seq<byte>>, gap: nat) {
    && |next| == |crcs| == |words|
    && forall j | 0 <= j < |crcs| :: next[j] == Zeros(CrcRegister(crcs[j], words[j]), gap)
  }

  /** One block moves the sum of the braids past its data. */
  lemma {:induction false} SpreadSteps(next: seq<bv32>, crcs: seq<bv32>, words: seq<seq<byte>>, w: nat, gap: nat)
    requires Sized(words, w) && Stepped(next, crcs, words, gap)
    ensures Spread(next, w) == Zeros(Add(Spread(crcs, w), CrcRegister(0, Joined(words))), gap + w)
  {
    hide Zeros, Add, CrcRegister;
    if crcs == [] {
      RegisterOfNothing(0);
      AddZero(0);
      ZerosOfZero(gap + w);
    } else {
      var n := |crcs|;
      var tail := Joined(words[1..]);
      SpreadSteps(next[1..], crcs[1..], words[1..], w, gap);
      JoinedLength(words[1..], w);
      RegisterConcat(words[0], tail);
      FirstSteps(crcs[0], words[0], n, w, gap);
      var z, v := Zeros(crcs[0], n * w), Zeros(CrcRegister(0, words[0]), (n - 1) * w);
      var s, r := Spread(crcs[1..], w), CrcRegister(0, tail);
      AddSwap(z, v, s, r);
      ZerosLinear(Add(z, v), Add(s, r), gap + w);
    }
  }

  lemma RegisterOfNothing(c: bv32)
    ensures CrcRegister(c, []) == c
  {
  }

  lemma FirstSteps(c: bv32, word: seq<byte>, n: nat, w: nat, gap: nat)
    requires n > 0 && |word| == w
    ensures Zeros(Zeros(CrcRegister(c, word), gap), n * w)
         == Zeros(Add(Zeros(c, n * w), Zeros(CrcRegister(0, word), (n - 1) * w)), gap + w)
  {
    hide Zeros, Add, CrcRegister;
    RegisterSplits(c, word);
    var r := CrcRegister(0, word);
    var rest := (n - 1) * w;
    assert n * w == rest + w;
    ZerosAdd(CrcRegister(c, word), gap, n * w);
    ZerosAdd(CrcRegister(c, word), rest, gap + w);
    ZerosLinear(Zeros(c, w), r, rest);
    ZerosAdd(c, w, rest);
  }

  /** The combination of the braids over the last block: registers are added in word by word. */
  function Combined(c: bv32, crcs: seq<bv32>, words: seq<seq<byte>>): bv32
    requires |crcs| == |words|
    decreases |crcs|
  {
    if crcs == [] then c
    else Combined(CrcRegister(Add(c, crcs[0]), words[0]), crcs[1..], words[1..])
  }

  lemma {:induction false} CombinedIs(c: bv32, crcs: seq<bv32>, words: seq<seq<byte>>, w: nat)
    requires |crcs| == |words| && Sized(words, w)
    ensures Combined(c, crcs, words)
         == Add(Zeros(c, |crcs| * w), Add(Spread(crcs, w), CrcRegister(0, Joined(words))))
    decreases |crcs|
  {
    hide Zeros, Add, CrcRegister;
    if crcs == [] {
      RegisterOfNothing(0);
      AddZero(0);
      AddZero(c);
      NoZeros(c);
    } else {
      var n := |crcs|;
      var rest := (n - 1) * w;
      assert n * w == rest + w;
      var tail := Joined(words[1..]);
      var next := CrcRegister(Add(c, crcs[0]), words[0]);
      var r := CrcRegister(0, words[0]);
      CombinedIs(next, crcs[1..], words[1..], w);
      JoinedLength(words[1..], w);
      RegisterConcat(words[0], tail);
      RegisterSplits(Add(c, crcs[0]), words[0]);
      ZerosLinear(c, crcs[0], w);
      ZerosLinear(Add(Zeros(c, w), Zeros(crcs[0], w)), r, rest);
      ZerosLinear(Zeros(c, w), Zeros(crcs[0], w), rest);
      ZerosAdd(c, w, rest);
      ZerosAdd(crcs[0], w, rest);
      Regroup(Zeros(c, n * w), Zeros(crcs[0], n * w), Zeros(r, rest), Spread(crcs[1..], w), CrcRegister(0, tail));
    }
  }

  lemma Regroup(a: bv32, b: bv32, c: bv32, d: bv32, e: bv32)
    ensures Add(Add(Add(a, b), c), Add(d, e)) == Add(a, Add(Add(b, d), Add(c, e)))
  {
    hide Add;
    AddAssociates(a, b, c);
    AddAssociates(a, Add(b, c), Add(d, e));
    AddSwap(b, c, d, e);
  }
}

/** crc32.c: crc_word, crc_word_big and the portable crc32_z, for either byte order. */
module BraidedCrc {
  import opened Basics
  import opened Checks
  import Memory
  import opened Gf2
  import opened Braids
  import opened Words
  import opened Crc32

  // ----- Words through the tables -----

  lemma LookupByte(t: CrcTables, c: byte)
    requires t.Made()
    ensures Index(c) < 256 && t.bytes[Index(c)] == Table(c)
    ensures t.bytesBig[Index(c)] == ByteSwap(t.w, Widen(Table(c)))
  {
    hide Table, ByteSwap, Widen, Index, ToByte;
    IndexOfByte(c);
  }

  lemma LookupBraid(t: CrcTables, k: nat, c: byte)
    requires t.Made() && k < t.w
    ensures Index(c) < 256 && k <= t.n * t.w && t.braid[k, Index(c)] == Entry(t.n, t.w, k, c)
    ensures t.braidBig[t.w - 1 - k, Index(c)] == ByteSwap(t.w, Widen(Entry(t.n, t.w, k, c)))
  {
    hide Entry, ByteSwap, Widen, Index, ToByte;
    IndexOfByte(c);
    RowInRange(t.n, t.w, k);
    assert t.RowMade(k, 256);
  }

  method CrcWord(t: CrcTables, word: bv64) returns (crc: bv32)
    requires t.Made() && Fits(t.w, word)
    ensures crc == CrcRegister(0, WordBytes(word, t.w))
  {
    hide CrcTables.BytesMade, CrcTables.PowersMade, CrcTables.BraidsMade, Table, Widen, Xor, Down, LowByte, Index;
    hide Fits, CrcRegister, WordBytes;
    var data := word;
    for k := 0 to t.w
      invariant data == WordSteps(word, k)
    {
      LookupByte(t, LowByte(data));
      data := Xor(Down(data), Widen(t.bytes[Index(LowByte(data))]));
    }
    XorZero(word);
    WordRegister(word, 0, t.w);
    crc := Narrow(data);
    NarrowWiden(CrcRegister(0, WordBytes(word, t.w)));
  }

  method CrcWordBig(t: CrcTables, word: bv64) returns (crc: bv64)
    requires t.Made() && Fits(t.w, word)
    ensures crc == ByteSwap(t.w, Widen(CrcRegister(0, WordBytes(ByteSwap(t.w, word), t.w))))
  {
    hide CrcTables.BytesMade, CrcTables.PowersMade, CrcTables.BraidsMade, Table, Widen, Xor, Down, LowByte, Index;
    hide Fits, CrcRegister, WordBytes, ByteSwap, ShiftUp, ShiftBytes;
    var w := t.w;
    ghost var start := ByteSwap(w, word);
    ghost var little := start;
    SwapTwice(w, word);
    crc := word;
    for k := 0 to w
      invariant little == WordSteps(start, k) && Fits(w, little)
      invariant crc == ByteSwap(w, little)
    {
      SwapReverses(w, little, w - 1);
      ByteZero(little);
      LookupByte(t, LowByte(little));
      SwapShift(w, little);
      WidenFits(w, Table(LowByte(little)));
      XorFits(w, little, little);
      XorFits(w, Down(little), Widen(Table(LowByte(little))));
      SwapLinear(w, Down(little), Widen(Table(LowByte(little))));
      crc := Xor(ShiftUp(w, crc), t.bytesBig[Index(ByteAt(crc, w - 1))]);
      little := WordStep(little);
    }
    XorZero(start);
    WordRegister(start, 0, w);
  }

  function Narrow(word: bv64): bv32 { (word & 0xffff_ffff) as bv32 }

  lemma NarrowWiden(c: bv32)
    ensures Narrow(Widen(c)) == c
  {
  }

  lemma ByteZero(v: bv64)
    ensures ByteAt(v, 0) == LowByte(v)
  {
  }

  // ----- One word of one braid -----

  /** The lookups of the bytes of a word from byte k on. */
  function Lookups(n: nat, w: nat, word: bv64, k: nat): bv32
    requires n >= 1 && k <= w
    decreases w - k
  {
    RowInRange(n, w, k);
    if k == w then 0 else Add(Entry(n, w, k, ByteAt(word, k)), Lookups(n, w, word, k + 1))
  }

  lemma {:induction false} LookupsAre(n: nat, w: nat, word: bv64, k: nat)
    requires n >= 1 && WordSize(w) && k <= w
    ensures k <= n * w
    ensures Add(Zeros(CrcRegister(0, WordBytes(word, w)[..k]), n * w - k), Lookups(n, w, word, k))
         == Zeros(CrcRegister(0, WordBytes(word, w)), (n - 1) * w)
    decreases w - k
  {
    hide Zeros, Add, CrcRegister, ByteAt, CrcByte;
    RowInRange(n, w, k);
    var bytes := WordBytes(word, w);
    var r := CrcRegister(0, bytes[..k]);
    if k == w {
      assert bytes[..k] == bytes;
      assert n * w - w == (n - 1) * w;
      AddZero(Zeros(r, n * w - k));
    } else {
      LookupsAre(n, w, word, k + 1);
      var b := ByteAt(word, k);
      RegisterNext(0, bytes, k);
      ByteIsZeros(r, b);
      ZerosAdd(Add(r, b as bv32), 1, n * w - k - 1);
      ZerosLinear(r, b as bv32, n * w - k);
      AddAssociates(Zeros(r, n * w - k), Zeros(b as bv32, n * w - k), Lookups(n, w, word, k + 1));
    }
  }

  lemma RegisterNext(c: bv32, data: seq<byte>, k: nat)
    requires k < |data|
    ensures CrcRegister(c, data[..k + 1]) == CrcByte(CrcRegister(c, data[..k]), data[k])
  {
    hide CrcByte;
    assert data[..k + 1][..k] == data[..k];
  }

  lemma AllLookups(n: nat, w: nat, word: bv64)
    requires n >= 1 && WordSize(w)
    ensures Lookups(n, w, word, 0) == Zeros(CrcRegister(0, WordBytes(word, w)), (n - 1) * w)
  {
    hide Zeros, Add, Lookups;
    LookupsAre(n, w, word, 0);
    assert WordBytes(word, w)[..0] == [];
    ZerosOfZero(n * w);
    AddZero(Lookups(n, w, word, 0));
  }

  /** Lookups of the first k bytes. */
  function Looked(n: nat, w: nat, word: bv64, k: nat): bv32
    requires n >= 1 && k <= w
  {
    RowInRange(n, w, k);
    if k == 0 then 0 else Add(Looked(n, w, word, k - 1), Entry(n, w, k - 1, ByteAt(word, k - 1)))
  }

  lemma {:induction false} LookedAndLookups(n: nat, w: nat, word: bv64, k: nat)
    requires n >= 1 && k <= w
    ensures Add(Looked(n, w, word, k), Lookups(n, w, word, k)) == Lookups(n, w, word, 0)
  {
    hide Add, Entry, ByteAt;
    AddZero(Lookups(n, w, word, k));
    if k > 0 {
      RowInRange(n, w, k);
      LookedAndLookups(n, w, word, k - 1);
      AddAssociates(Looked(n, w, word, k - 1), Entry(n, w, k - 1, ByteAt(word, k - 1)), Lookups(n, w, word, k));
    }
  }

  /** The inner loop of a little-endian braid. */
  method BraidWord(t: CrcTables, word: bv64) returns (crc: bv32)
    requires t.Made()
    ensures crc == Zeros(CrcRegister(0, WordBytes(word, t.w)), (t.n - 1) * t.w)
  {
    hide CrcTables.BytesMade, CrcTables.PowersMade, CrcTables.BraidsMade, Add, Entry, Index, ByteAt, Zeros;
    hide CrcRegister, WordBytes;
    LookupBraid(t, 0, ByteAt(word, 0));
    AddZero(Entry(t.n, t.w, 0, ByteAt(word, 0)));
    crc := t.braid[0, Index(ByteAt(word, 0))];
    for k := 1 to t.w
      invariant crc == Looked(t.n, t.w, word, k)
    {
      LookupBraid(t, k, ByteAt(word, k));
      crc := Add(crc, t.braid[k, Index(ByteAt(word, k))]);
    }
    LookedAndLookups(t.n, t.w, word, t.w);
    AddZero(crc);
    AllLookups(t.n, t.w, word);
  }

  /** The inner loop of a big-endian braid. */
  method BraidWordBig(t: CrcTables, word: bv64) returns (crc: bv64)
    requires t.Made() && Fits(t.w, word)
    ensures crc == ByteSwap(t.w, Widen(Zeros(CrcRegister(0, WordBytes(ByteSwap(t.w, word), t.w)), (t.n - 1) * t.w)))
  {
    hide CrcTables.BytesMade, CrcTables.PowersMade, CrcTables.BraidsMade, Add, Entry, Index, ByteAt, Zeros;
    hide CrcRegister, WordBytes, ByteSwap, Widen, Xor, Fits;
    var n, w := t.n, t.w;
    ghost var little := ByteSwap(w, word);
    SwapTwice(w, word);
    BigLookup(t, word, 0);
    crc := t.braidBig[0, Index(ByteAt(word, 0))];
    LastLookup(n, w, little);
    for k := 1 to w
      invariant crc == ByteSwap(w, Widen(Lookups(n, w, little, w - k)))
    {
      BigLookup(t, word, k);
      BigSum(n, w, little, w - k);
      crc := Xor(crc, t.braidBig[k, Index(ByteAt(word, k))]);
    }
    AllLookups(n, w, little);
  }

  lemma LastLookup(n: nat, w: nat, word: bv64)
    requires n >= 1 && w >= 1
    ensures w - 1 <= n * w
    ensures Lookups(n, w, word, w - 1) == Entry(n, w, w - 1, ByteAt(word, w - 1))
  {
    hide Add, Entry, ByteAt;
    RowInRange(n, w, w - 1);
    AddZero(Entry(n, w, w - 1, ByteAt(word, w - 1)));
  }

  lemma BigLookup(t: CrcTables, word: bv64, k: nat)
    requires t.Made() && Fits(t.w, word) && k < t.w
    ensures t.w - 1 - k <= t.n * t.w && Index(ByteAt(word, k)) < 256
    ensures t.braidBig[k, Index(ByteAt(word, k))]
         == ByteSwap(t.w, Widen(Entry(t.n, t.w, t.w - 1 - k, ByteAt(ByteSwap(t.w, word), t.w - 1 - k))))
  {
    hide Add, Entry, Index, ByteAt, ByteSwap, Widen, Fits;
    SwapReverses(t.w, word, t.w - 1 - k);
    LookupBraid(t, t.w - 1 - k, ByteAt(word, k));
  }

  lemma BigSum(n: nat, w: nat, little: bv64, k: nat)
    requires n >= 1 && WordSize(w) && 1 <= k <= w
    ensures k - 1 <= n * w
    ensures Xor(ByteSwap(w, Widen(Lookups(n, w, little, k))),
                ByteSwap(w, Widen(Entry(n, w, k - 1, ByteAt(little, k - 1)))))
         == ByteSwap(w, Widen(Lookups(n, w, little, k - 1)))
  {
    hide Add, Entry, ByteAt, ByteSwap, Widen, Xor, Fits;
    RowInRange(n, w, k - 1);
    var e, s := Entry(n, w, k - 1, ByteAt(little, k - 1)), Lookups(n, w, little, k);
    AddCommutes(e, s);
    WidenAdd(s, e);
    WidenFits(w, s);
    WidenFits(w, e);
    SwapLinear(w, Widen(s), Widen(e));
  }

  // ----- Blocks of N words -----

  function WordAt(block: seq<byte>, n: nat, w: nat, j: nat): (r: seq<byte>)
    requires |block| == n * w && j < n
    ensures |r| == w
  {
    WordInRange(n, w, j);
    block[j * w..j * w + w]
  }

  lemma WordInRange(n: nat, w: nat, j: nat)
    requires j < n
    ensures j * w + w <= n * w
  {
    Memory.MulMono(j + 1, n, w);
  }

  function WordsOf(block: seq<byte>, n: nat, w: nat): (r: seq<seq<byte>>)
    requires |block| == n * w
    ensures |r| == n && Sized(r, w)
  {
    seq(n, j requires 0 <= j < n => WordAt(block, n, w, j))
  }

  lemma {:induction false} WordsJoin(block: seq<byte>, n: nat, w: nat)
    requires |block| == n * w
    ensures Joined(WordsOf(block, n, w)) == block
    decreases n
  {
    if n > 0 {
      hide WordAt;
      FirstWord(block, n, w);
      var rest := block[w..];
      WordsJoin(rest, n - 1, w);
      var tail, words := WordsOf(block, n, w)[1..], WordsOf(rest, n - 1, w);
      forall j | 0 <= j < n - 1 ensures tail[j] == words[j] {
        LaterWord(block, n, w, j);
      }
      assert tail == words;
    }
  }

  lemma FirstWord(block: seq<byte>, n: nat, w: nat)
    requires n >= 1 && |block| == n * w
    ensures w <= |block| && WordAt(block, n, w, 0) == block[..w] && |block[w..]| == (n - 1) * w
  {
    assert n * w == (n - 1) * w + w;
  }

  lemma LaterWord(block: seq<byte>, n: nat, w: nat, j: nat)
    requires n >= 1 && |block| == n * w && j < n - 1
    requires w <= |block| && |block[w..]| == (n - 1) * w
    ensures WordAt(block, n, w, j + 1) == WordAt(block[w..], n - 1, w, j)
  {
    WordInRange(n - 1, w, j);
    var at := j * w;
    assert (j + 1) * w == at + w;
    assert block[at + w..at + w + w] == block[w..][at..at + w];
  }

  /** A block whose words pass through the braids advances the register by the whole block. */
  lemma BlockAdvances(next: seq<bv32>, crcs: seq<bv32>, c: bv32, block: seq<byte>, n: nat, w: nat)
    requires n >= 1 && |crcs| == n && |block| == n * w
    requires Stepped(next, crcs, WordsOf(block, n, w), (n - 1) * w)
    requires Spread(crcs, w) == Zeros(c, n * w)
    ensures Spread(next, w) == Zeros(CrcRegister(c, block), n * w)
  {
    hide Stepped, Spread, Zeros, CrcRegister, Add, WordsOf, Sized;
    WordsJoin(block, n, w);
    SpreadSteps(next, crcs, WordsOf(block, n, w), w, (n - 1) * w);
    RegisterSplits(c, block);
    assert (n - 1) * w + w == n * w;
  }

  lemma BlockCombines(crcs: seq<bv32>, c: bv32, block: seq<byte>, n: nat, w: nat)
    requires n >= 1 && |crcs| == n && |block| == n * w
    requires Spread(crcs, w) == Zeros(c, n * w)
    ensures Combined(0, crcs, WordsOf(block, n, w)) == CrcRegister(c, block)
  {
    hide Spread, Zeros, CrcRegister, Add, Combined, WordsOf, Sized;
    WordsJoin(block, n, w);
    CombinedIs(0, crcs, WordsOf(block, n, w), w);
    RegisterSplits(c, block);
    ZerosOfZero(n * w);
    AddZero(Add(Zeros(c, n * w), CrcRegister(0, block)));
  }

  lemma LoadWord(w: nat, d: seq<byte>, c: bv32)
    requires WordSize(w) && |d| == w
    ensures Fits(w, Xor(LoadLittle(w, d), Widen(c)))
    ensures CrcRegister(0, WordBytes(Xor(LoadLittle(w, d), Widen(c)), w)) == CrcRegister(c, d)
  {
    hide CrcRegister, WordBytes, Xor, Widen, LoadLittle, Fits;
    LittleRoundTrip(w, d);
    RegisterMoves(LoadLittle(w, d), c, w);
    WidenFits(w, c);
    XorFits(w, LoadLittle(w, d), Widen(c));
  }

  /** One block through the braids, little-endian. */
  method BraidBlock(t: CrcTables, crcs: seq<bv32>, block: seq<byte>) returns (next: seq<bv32>)
    requires t.Made() && |crcs| == t.n && |block| == t.n * t.w
    ensures Stepped(next, crcs, WordsOf(block, t.n, t.w), (t.n - 1) * t.w)
  {
    hide CrcTables.BytesMade, CrcTables.PowersMade, CrcTables.BraidsMade, CrcRegister, WordBytes, Xor, Widen;
    hide LoadLittle, Zeros, Fits, WordAt;
    next := [];
    for j := 0 to t.n
      invariant |next| == j
      invariant forall i | 0 <= i < j ::
        next[i] == Zeros(CrcRegister(crcs[i], WordAt(block, t.n, t.w, i)), (t.n - 1) * t.w)
    {
      var d := WordAt(block, t.n, t.w, j);
      LoadWord(t.w, d, crcs[j]);
      var crc := BraidWord(t, Xor(LoadLittle(t.w, d), Widen(crcs[j])));
      next := next + [crc];
    }
  }

  /** The last block, little-endian. */
  method CombineBlock(t: CrcTables, crcs: seq<bv32>, block: seq<byte>) returns (crc: bv32)
    requires t.Made() && |crcs| == t.n && |block| == t.n * t.w
    ensures crc == Combined(0, crcs, WordsOf(block, t.n, t.w))
  {
    hide CrcTables.BytesMade, CrcTables.PowersMade, CrcTables.BraidsMade, CrcRegister, WordBytes, Xor, Widen;
    hide LoadLittle, Fits, WordAt, Add;
    ghost var words := WordsOf(block, t.n, t.w);
    crc := 0;
    assert crcs[0..] == crcs && words[0..] == words;
    for j := 0 to t.n
      invariant Combined(crc, crcs[j..], words[j..]) == Combined(0, crcs, words)
    {
      var d := WordAt(block, t.n, t.w, j);
      var word := LoadLittle(t.w, d);
      Mixed(word, crcs[j], crc);
      LoadWord(t.w, d, Add(crc, crcs[j]));
      assert crcs[j..][1..] == crcs[j + 1..] && words[j..][1..] == words[j + 1..];
      crc := CrcWord(t, Xor(Xor(word, Widen(crcs[j])), Widen(crc)));
    }
  }

  lemma Mixed(word: bv64, a: bv32, c: bv32)
    ensures Xor(Xor(word, Widen(a)), Widen(c)) == Xor(word, Widen(Add(c, a)))
  {
    hide Xor, Widen, Add;
    XorAssociates(word, Widen(a), Widen(c));
    WidenAdd(a, c);
    AddCommutes(a, c);
  }

  /** The braided calculation over whole blocks, little-endian. */
  method BraidedLittle(t: CrcTables, start: bv32, data: seq<byte>, blks: nat) returns (crc: bv32)
    requires t.Made() && blks >= 1 && Blocks(|data|, blks, t.n * t.w)
    ensures crc == CrcRegister(start, data)
  {
    hide Blocks, CrcTables.BytesMade, CrcTables.PowersMade, CrcTables.BraidsMade, CrcRegister, Zeros, Spread, Stepped;
    hide WordsOf;
    var size := t.n * t.w;
    var crcs := seq(t.n, j requires 0 <= j < t.n => if j == 0 then start else 0);
    SpreadStarts(crcs, t.w);
    var at := 0;
    RegisterOfNothing(start);
    assert data[..0] == [];
    var left := blks;
    NextBlock(|data|, left, size);
    while left > 1
      invariant left >= 1 && 0 <= at && at + size <= |data| && Blocks(|data| - at, left, size)
      invariant |crcs| == t.n
      invariant Spread(crcs, t.w) == Zeros(CrcRegister(start, data[..at]), size)
    {
      NextBlock(|data| - at, left, size);
      var block := data[at..at + size];
      var next := BraidBlock(t, crcs, block);
      BlockAdvances(next, crcs, CrcRegister(start, data[..at]), block, t.n, t.w);
      SteppedSize(next, crcs, WordsOf(block, t.n, t.w), (t.n - 1) * t.w);
      AppendBlock(start, data, at, size);
      crcs := next;
      at := at + size;
      left := left - 1;
    }
    NextBlock(|data| - at, left, size);
    crc := CombineBlock(t, crcs, data[at..]);
    BlockCombines(crcs, CrcRegister(start, data[..at]), data[at..], t.n, t.w);
    CrcRegisterAppend(start, data[..at], data[at..]);
    assert data[..at] + data[at..] == data;
  }

  lemma SteppedSize(next: seq<bv32>, crcs: seq<bv32>, words: seq<seq<byte>>, gap: nat)
    requires Stepped(next, crcs, words, gap)
    ensures |next| == |crcs|
  {
  }

  /** `length` bytes are k blocks. */
  predicate Blocks(length: int, k: int, size: nat) { length == k * size }

  lemma NextBlock(length: int, k: int, size: nat)
    requires Blocks(length, k, size) && k >= 1
    ensures Blocks(length - size, k - 1, size)
    ensures k == 1 ==> length == size
    ensures k > 1 ==> length >= 2 * size
  {
    assert (k - 1) * size == k * size - size;
    if k > 1 {
      assert k * size == 2 * size + (k - 2) * size;
    }
  }

  lemma AppendBlock(start: bv32, data: seq<byte>, at: nat, size: nat)
    requires at + size <= |data|
    ensures CrcRegister(start, data[..at + size]) == CrcRegister(CrcRegister(start, data[..at]), data[at..at + size])
  {
    hide CrcRegister;
    CrcRegisterAppend(start, data[..at], data[at..at + size]);
    assert data[..at] + data[at..at + size] == data[..at + size];
  }

  // ----- The same on a big-endian processor: every register and word has its bytes swapped -----

  function Swapped(w: nat, c: bv32): bv64 { ByteSwap(w, Widen(c)) }

  predicate Mirrors(big: seq<bv64>, little: seq<bv32>, w: nat) {
    |big| == |little| && forall j | 0 <= j < |big| :: big[j] == Swapped(w, little[j])
  }

  lemma LoadWordBig(w: nat, d: seq<byte>, c: bv32)
    requires WordSize(w) && |d| == w
    ensures Fits(w, Xor(LoadBig(w, d), Swapped(w, c)))
    ensures ByteSwap(w, Xor(LoadBig(w, d), Swapped(w, c))) == Xor(LoadLittle(w, d), Widen(c))
  {
    hide WordBytes, Xor, Widen, LoadLittle, LoadBig, Fits, ByteSwap;
    LoadWord(w, d, c);
    LittleRoundTrip(w, d);
    BigIsSwapped(w, d);
    WidenFits(w, c);
    SwapLinear(w, LoadLittle(w, d), Widen(c));
    SwapTwice(w, Xor(LoadLittle(w, d), Widen(c)));
  }

  method BraidBlockBig(t: CrcTables, crcs: seq<bv64>, ghost little: seq<bv32>, block: seq<byte>)
      returns (next: seq<bv64>, ghost nextLittle: seq<bv32>)
    requires t.Made() && |crcs| == t.n && |block| == t.n * t.w && Mirrors(crcs, little, t.w)
    ensures Stepped(nextLittle, little, WordsOf(block, t.n, t.w), (t.n - 1) * t.w)
    ensures Mirrors(next, nextLittle, t.w)
  {
    hide CrcTables.BytesMade, CrcTables.PowersMade, CrcTables.BraidsMade, CrcRegister, WordBytes, Xor, Widen;
    hide LoadLittle, LoadBig, Zeros, Fits, WordAt, ByteSwap, Swapped;
    next, nextLittle := [], [];
    for j := 0 to t.n
      invariant |nextLittle| == j && Mirrors(next, nextLittle, t.w)
      invariant forall i | 0 <= i < j ::
        nextLittle[i] == Zeros(CrcRegister(little[i], WordAt(block, t.n, t.w, i)), (t.n - 1) * t.w)
    {
      var d := WordAt(block, t.n, t.w, j);
      LoadWord(t.w, d, little[j]);
      LoadWordBig(t.w, d, little[j]);
      var crc := BraidWordBig(t, Xor(LoadBig(t.w, d), crcs[j]));
      ghost var step := Zeros(CrcRegister(little[j], d), (t.n - 1) * t.w);
      SwappedIs(t.w, step);
      next, nextLittle := next + [crc], nextLittle + [step];
    }
  }

  lemma SwappedIs(w: nat, c: bv32)
    ensures Swapped(w, c) == ByteSwap(w, Widen(c))
  {
  }

  method CombineBlockBig(t: CrcTables, crcs: seq<bv64>, ghost little: seq<bv32>, block: seq<byte>)
      returns (comb: bv64, ghost crc: bv32)
    requires t.Made() && |crcs| == t.n && |block| == t.n * t.w && Mirrors(crcs, little, t.w)
    ensures crc == Combined(0, little, WordsOf(block, t.n, t.w)) && comb == Swapped(t.w, crc)
  {
    hide CrcTables.BytesMade, CrcTables.PowersMade, CrcTables.BraidsMade, CrcRegister, WordBytes, Xor, Widen;
    hide LoadLittle, LoadBig, Fits, WordAt, Add, ByteSwap, Swapped;
    ghost var words := WordsOf(block, t.n, t.w);
    comb, crc := 0, 0;
    SwappedIs(t.w, 0);
    SwapOfZero(t.w);
    assert little[0..] == little && words[0..] == words;
    for j := 0 to t.n
      invariant comb == Swapped(t.w, crc)
      invariant Combined(crc, little[j..], words[j..]) == Combined(0, little, words)
    {
      var d := WordAt(block, t.n, t.w, j);
      var word := LoadBig(t.w, d);
      ghost var c := Add(crc, little[j]);
      MixedBig(word, little[j], crc, t.w);
      LoadWord(t.w, d, c);
      LoadWordBig(t.w, d, c);
      assert little[j..][1..] == little[j + 1..] && words[j..][1..] == words[j + 1..];
      comb := CrcWordBig(t, Xor(Xor(word, crcs[j]), comb));
      crc := CrcRegister(c, d);
      SwappedIs(t.w, crc);
    }
  }

  lemma MixedBig(word: bv64, a: bv32, c: bv32, w: nat)
    requires WordSize(w)
    ensures Xor(Xor(word, Swapped(w, a)), Swapped(w, c)) == Xor(word, Swapped(w, Add(c, a)))
  {
    hide Xor, Widen, Add, ByteSwap, Fits;
    XorAssociates(word, Swapped(w, a), Swapped(w, c));
    WidenAdd(a, c);
    AddCommutes(a, c);
    WidenFits(w, a);
    WidenFits(w, c);
    SwapLinear(w, Widen(a), Widen(c));
  }

  /** The braided calculation over whole blocks, big-endian. */
  method BraidedBig(t: CrcTables, start: bv32, data: seq<byte>, blks: nat) returns (crc: bv32)
    requires t.Made() && blks >= 1 && Blocks(|data|, blks, t.n * t.w)
    ensures crc == CrcRegister(start, data)
  {
    hide Blocks, CrcTables.BytesMade, CrcTables.PowersMade, CrcTables.BraidsMade, CrcRegister, Zeros, Spread, Stepped;
    hide WordsOf, ByteSwap, Widen, Swapped, Narrow;
    var size := t.n * t.w;
    ghost var little := seq(t.n, j requires 0 <= j < t.n => if j == 0 then start else 0);
    var crcs := seq(t.n, j requires 0 <= j < t.n => if j == 0 then ByteSwap(t.w, Widen(start)) else 0);
    SwappedIs(t.w, start);
    SwappedIs(t.w, 0);
    SwapOfZero(t.w);
    SpreadStarts(little, t.w);
    var at := 0;
    RegisterOfNothing(start);
    assert data[..0] == [];
    var left := blks;
    NextBlock(|data|, left, size);
    while left > 1
      invariant left >= 1 && 0 <= at && at + size <= |data| && Blocks(|data| - at, left, size)
      invariant |crcs| == t.n && Mirrors(crcs, little, t.w)
      invariant Spread(little, t.w) == Zeros(CrcRegister(start, data[..at]), size)
    {
      NextBlock(|data| - at, left, size);
      var block := data[at..at + size];
      var next, nextLittle := BraidBlockBig(t, crcs, little, block);
      BlockAdvances(nextLittle, little, CrcRegister(start, data[..at]), block, t.n, t.w);
      SteppedSize(nextLittle, little, WordsOf(block, t.n, t.w), (t.n - 1) * t.w);
      AppendBlock(start, data, at, size);
      crcs, little := next, nextLittle;
      at := at + size;
      left := left - 1;
    }
    NextBlock(|data| - at, left, size);
    var comb, sum := CombineBlockBig(t, crcs, little, data[at..]);
    BlockCombines(little, CrcRegister(start, data[..at]), data[at..], t.n, t.w);
    CrcRegisterAppend(start, data[..at], data[at..]);
    assert data[..at] + data[at..] == data;
    SwappedBack(t.w, sum);
    crc := Narrow(ByteSwap(t.w, comb));
  }

  lemma SwappedBack(w: nat, c: bv32)
    requires WordSize(w)
    ensures Narrow(ByteSwap(w, Swapped(w, c))) == c
  {
    hide ByteSwap, Widen, Narrow, Fits;
    WidenFits(w, c);
    SwapTwice(w, Widen(c));
    NarrowWiden(c);
  }

  // ----- crc32_z -----

  function Shift8(c: bv32): bv32 { c >> 8 }

  /** `(crc >> 8) ^ crc_table[(crc ^ c) & 0xff]`. */
  method TableByte(t: CrcTables, crc: bv32, c: byte) returns (r: bv32)
    requires t.Made()
    ensures r == CrcByte(crc, c)
  {
    hide CrcTables.BytesMade, CrcTables.PowersMade, CrcTables.BraidsMade, CrcByte, Add, Low32, Table, Index, Widen;
    hide ByteSwap;
    ByteStep(crc, c);
    var b := Low32(Add(crc, c as bv32));
    LookupByte(t, b);
    r := Add(Shift8(crc), t.bytes[Index(b)]);
  }

  /** Bytes one at a time, eight to a round while there are eight. */
  method Bytewise(t: CrcTables, start: bv32, data: seq<byte>) returns (crc: bv32)
    requires t.Made()
    ensures crc == CrcRegister(start, data)
  {
    hide CrcTables.BytesMade, CrcTables.PowersMade, CrcTables.BraidsMade, CrcRegister, CrcByte;
    crc := start;
    var i: nat := 0;
    RegisterOfNothing(start);
    assert data[..0] == [];
    while |data| - i >= 8
      invariant i <= |data| && crc == CrcRegister(start, data[..i])
    {
      for k := 0 to 8
        invariant crc == CrcRegister(start, data[..i + k])
      {
        RegisterNext(start, data, i + k);
        crc := TableByte(t, crc, data[i + k]);
      }
      i := i + 8;
    }
    while i < |data|
      invariant i <= |data| && crc == CrcRegister(start, data[..i])
    {
      RegisterNext(start, data, i);
      crc := TableByte(t, crc, data[i]);
      i := i + 1;
    }
    assert data[..i] == data;
  }

  predicate Aligning(address: nat, i: nat, w: nat)
    requires w > 0
  {
    i < w && (i == 0 || (address % w != 0 && address % w + i <= w))
  }

  lemma AlignStep(address: nat, i: nat, w: nat)
    requires WordSize(w) && Aligning(address, i, w) && (address + i) % w != 0
    ensures Aligning(address, i + 1, w)
  {
    AtBoundary(address, i, w);
  }

  lemma AtBoundary(address: nat, i: nat, w: nat)
    requires WordSize(w)
    ensures address % w + i == w ==> (address + i) % w == 0
    ensures i == 0 ==> (address + i) % w == address % w
  {
    if w == 4 {
      Boundary4(address, i);
    } else {
      Boundary8(address, i);
    }
  }

  lemma Boundary4(address: nat, i: nat)
    ensures address % 4 + i == 4 ==> (address + i) % 4 == 0
  {
  }

  lemma Boundary8(address: nat, i: nat)
    ensures address % 8 + i == 8 ==> (address + i) % 8 == 0
  {
  }

  /** The bytes before the first word boundary: fewer than a word. */
  method ToBoundary(t: CrcTables, start: bv32, data: seq<byte>, address: nat) returns (crc: bv32, i: nat)
    requires t.Made()
    ensures i <= |data| && i < t.w && crc == CrcRegister(start, data[..i])
    ensures i < |data| ==> (address + i) % t.w == 0
  {
    hide CrcTables.BytesMade, CrcTables.PowersMade, CrcTables.BraidsMade, CrcRegister, CrcByte;
    crc, i := start, 0;
    assert Aligning(address, 0, t.w);
    hide Aligning;
    RegisterOfNothing(start);
    assert data[..0] == [];
    var w := t.w;
    while i < |data| && (address + i) % w != 0
      invariant i <= |data| && crc == CrcRegister(start, data[..i])
      invariant Aligning(address, i, w)
    {
      AlignStep(address, i, w);
      RegisterNext(start, data, i);
      crc := TableByte(t, crc, data[i]);
      i := i + 1;
    }
    AlignBound(address, i, w);
  }

  lemma AlignBound(address: nat, i: nat, w: nat)
    requires w > 0 && Aligning(address, i, w)
    ensures i < w
  {
  }

  /** The portable crc32_z is the bit-by-bit CRC, for every buffer, alignment, N, W and byte order. */
  method Crc32Z(t: CrcTables, little: bool, start: bv32, buf: Option<seq<byte>>, address: nat) returns (r: bv32)
    requires t.Made()
    ensures buf.None? ==> r == 0
    ensures buf.Some? ==> r == Crc(start, buf.value)
  {
    hide CrcTables.BytesMade, CrcTables.PowersMade, CrcTables.BraidsMade, CrcRegister, Flip;
    if buf.None? {
      return 0;
    }
    var data := buf.value;
    var crc := Flip(start);
    var done := 0;
    var size := t.n * t.w;
    RegisterOfNothing(crc);
    assert data[..0] == [];
    if |data| >= size + t.w - 1 {
      crc, done := ToBoundary(t, crc, data, address);
      var rest := data[done..];
      var blks := |rest| / size;
      EnoughBlocks(|rest|, size);
      var whole := rest[..blks * size];
      AppendBlock(Flip(start), data, done, blks * size);
      assert data[done..done + blks * size] == whole;
      if little {
        crc := BraidedLittle(t, crc, whole, blks);
      } else {
        crc := BraidedBig(t, crc, whole, blks);
      }
      done := done + blks * size;
    }
    crc := Bytewise(t, crc, data[done..]);
    CrcRegisterAppend(Flip(start), data[..done], data[done..]);
    assert data[..done] + data[done..] == data;
    r := Flip(crc);
  }

  lemma EnoughBlocks(length: nat, size: nat)
    requires 1 <= size <= length
    ensures length / size >= 1 && (length / size) * size <= length
  {
  }
}

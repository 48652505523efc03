/**
 deflate_state with its z_stream: the sliding window, the hash tables, the symbol buffer, and the
 ghost account of what they stand for.
 */
module DeflateStates {
  import opened Basics
  import opened Lz77
  import opened RollingHash
  import opened HashChains
  import opened Bits
  import opened Blocks
  import opened Checks
  import opened OutputSide

  const MIN_LOOKAHEAD: nat := MAX_MATCH + MIN_MATCH + 1
  const WIN_INIT: nat := MAX_MATCH

  datatype Flush = NoFlush | PartialFlush | SyncFlush | FullFlush | Finish | BlockFlush

  datatype BlockState = NeedMore | BlockDone | FinishStarted | FinishDone

  datatype Strategy = DefaultStrategy | Filtered | HuffmanOnly | Rle | Fixed

  /** gz_header: what deflateSetHeader was given; strings are without their terminating zero. */
  datatype GzHeader = GzHeader(text: bool, time: nat, os: nat, extra: Option<seq<byte>>,
                               name: Option<seq<byte>>, comment: Option<seq<byte>>, hcrc: bool)

  datatype Status = InitState | GzipState | ExtraState | NameState | CommentState | HcrcState | BusyState | FinishState

  /** A row of configuration_table. */
  datatype Tuning = Tuning(goodLength: nat, maxLazy: nat, niceLength: nat, maxChain: nat)

  function Configuration(level: nat): Tuning
    requires level <= 9
  {
    [Tuning(0, 0, 0, 0), Tuning(4, 4, 8, 4), Tuning(4, 5, 16, 8), Tuning(4, 6, 32, 32),
     Tuning(4, 4, 16, 16), Tuning(8, 16, 32, 32), Tuning(8, 16, 128, 128), Tuning(8, 32, 128, 256),
     Tuning(32, 128, 258, 1024), Tuning(32, 258, 258, 4096)][level]
  }

  /** Unsigned 32-bit subtraction. */
  function Sub32(a: nat, b: nat): uint32 {
    (a - b) % UINT32
  }

  lemma Sub32Zero(a: uint32)
    ensures Sub32(a, 0) == a
  {
  }

  /** One entry of sym_buf: two distance bytes, then the literal or the length less MIN_MATCH. */
  function UnpackSymbol(lo: byte, hi: byte, lc: byte): Symbol {
    if lo == 0 && hi == 0 then Literal(lc)
    else Match(lc as int + MIN_MATCH, lo as int + 256 * hi as int)
  }

  function Unpack(buf: seq<byte>): seq<Symbol>
    requires |buf| % 3 == 0
  {
    if buf == [] then []
    else
      var n := |buf| - 3;
      Unpack(buf[..n]) + [UnpackSymbol(buf[n], buf[n + 1], buf[n + 2])]
  }

  lemma UnpackSnoc(buf: seq<byte>, lo: byte, hi: byte, lc: byte)
    requires |buf| % 3 == 0
    ensures Unpack(buf + [lo, hi, lc]) == Unpack(buf) + [UnpackSymbol(lo, hi, lc)]
  {
    assert (buf + [lo, hi, lc])[..|buf|] == buf;
  }

  /** The distance and length of a legal match survive their trip through the buffer. */
  lemma PackMatch(dist: nat, len: nat)
    requires 1 <= dist < 0x1_0000 && MIN_MATCH <= len <= MAX_MATCH
    ensures UnpackSymbol(Low(dist), Low(dist / 256), Low(len - MIN_MATCH)) == Match(len, dist)
  {
    hide Low;
    LowValue(dist);
    LowValue(dist / 256);
    LowValue(len - MIN_MATCH);
    TwoBytes(dist);
    SymbolIs(Low(dist), Low(dist / 256), Low(len - MIN_MATCH), dist % 256, dist / 256 % 256, len - MIN_MATCH);
    hide UnpackSymbol;
  }

  lemma TwoBytes(dist: nat)
    requires dist < 0x1_0000
    ensures dist == dist % 256 + 256 * (dist / 256 % 256)
  {
  }

  lemma SymbolIs(lo: byte, hi: byte, lc: byte, l: nat, h: nat, n: nat)
    requires lo as int == l && hi as int == h && lc as int == n && l + h > 0
    ensures UnpackSymbol(lo, hi, lc) == Match(n + MIN_MATCH, l + 256 * h)
  {
    ZeroByte(lo);
    ZeroByte(hi);
  }

  /**
   Blocks that decode to s[..from], then symbols that take it to s[..n]; from the restart point on, neither
   reaches back past it.
   */
  ghost predicate Carries(reach: nat, s: seq<byte>, r: Restart, from: int, blocks: seq<Block>, syms: seq<Symbol>,
                          n: int)
  {
    && DecodesTo(reach, blocks, r, s, from) && from <= n <= |s|
    && Decode(reach, s[r.at..from], syms) == Some(s[r.at..n])
  }

  lemma CarriesGrows(reach: nat, s: seq<byte>, s': seq<byte>, r: Restart, from: int, blocks: seq<Block>,
                     syms: seq<Symbol>, n: int)
    requires Carries(reach, s, r, from, blocks, syms, n) && s <= s'
    ensures Carries(reach, s', r, from, blocks, syms, n)
  {
    hide DecodesTo, Decode;
    DecodesBounds(reach, blocks, r, s, from);
    DecodesGrows(reach, blocks, r, s, s', from);
    assert s'[r.at..from] == s[r.at..from] && s'[r.at..n] == s[r.at..n];
  }

  lemma LiteralCarries(reach: nat, s: seq<byte>, r: Restart, from: int, blocks: seq<Block>, syms: seq<Symbol>, n: int)
    requires Carries(reach, s, r, from, blocks, syms, n) && n < |s|
    ensures Carries(reach, s, r, from, blocks, syms + [Literal(s[n])], n + 1)
  {
    hide DecodesTo, Decode;
    DecodesBounds(reach, blocks, r, s, from);
    DecodeSnoc(reach, s[r.at..from], syms, Literal(s[n]));
    assert s[r.at..n] + [s[n]] == s[r.at..n + 1];
  }

  lemma MatchCarries(reach: nat, s: seq<byte>, r: Restart, from: int, blocks: seq<Block>, syms: seq<Symbol>, n: int,
                     len: nat, dist: nat)
    requires Carries(reach, s, r, from, blocks, syms, n)
    requires MIN_MATCH <= len <= MAX_MATCH && dist <= reach && r.at + dist <= n && Repeats(s, n, dist, len)
    ensures Carries(reach, s, r, from, blocks, syms + [Match(len, dist)], n + len)
  {
    hide DecodesTo, Decode, Repeats;
    DecodesBounds(reach, blocks, r, s, from);
    DecodeSnoc(reach, s[r.at..from], syms, Match(len, dist));
    RepeatsTail(s, n, dist, len, r.at);
    RepeatIsCopy(s[r.at..], n - r.at, dist, len);
    assert s[r.at..][..n - r.at] == s[r.at..n] && s[r.at..][..n + len - r.at] == s[r.at..n + len];
  }

  /** Symbols take the decoder further. */
  lemma CarriesAdvances(reach: nat, s: seq<byte>, r: Restart, from: int, blocks: seq<Block>, syms: seq<Symbol>,
                        n: int)
    requires Carries(reach, s, r, from, blocks, syms, n) && syms != []
    ensures from < n
  {
    hide DecodesTo, Decode;
    DecodesBounds(reach, blocks, r, s, from);
    DecodeLengthens(reach, s[r.at..from], syms);
  }

  class DeflateState {
    const wBits: nat
    const wSize: nat
    const hashBits: nat
    const litBufsize: nat
    const tuning: Tuning
    const level: nat
    const strategy: Strategy
    const wrap: Wrap
    const gzhead: Option<GzHeader>
    const coder: Coder

    const window: array<byte>
    const head: array<nat>
    const prev: array<nat>
    const symBuf: array<byte>
    const out: Output

    var status: Status
    var lastFlush: int
    var gzindex: nat
    var trailerDone: bool        // wrap has been made negative

    // z_stream, input side
    var nextIn: seq<byte>        // the avail_in bytes at next_in
    var totalIn: nat
    var check: nat               // strm->adler

    var strStart: nat
    var lookahead: nat
    var blockStart: int
    var insert: nat
    var insH: bv32
    var matchStart: uint32       // may be garbage, and wraps when the window slides
    var prevMatch: uint32
    var matchLength: nat
    var prevLength: nat
    var matchAvailable: bool
    var highWater: nat
    var symNext: nat
    var matches: nat             // in deflate_stored: slides the hash tables have missed

    ghost var S: seq<byte>           // every input byte read so far
    ghost var base: nat              // the stream position of window[0]
    ghost var inserted: set<nat>     // stream positions entered in the hash tables
    ghost var header: seq<byte>      // the format header sent before the first block
    ghost var blocks: seq<Block>     // the blocks sent so far
    ghost var restart: Restart       // the last full flush, or the start of the stream
    ghost var trailer: seq<byte>     // the format trailer sent after the last block
    ghost var written: set<nat>      // the window indices that have been given a value

    /** The state deflateInit2_ leaves: prev[], window[] and match_start hold anything. */
    constructor (level: nat, wrap: Wrap, gzhead: Option<GzHeader>, windowBits: nat, memLevel: nat,
                 strategy: Strategy, coder: Coder)
      requires level <= 9 && 9 <= windowBits <= 15 && 1 <= memLevel <= 9
      ensures Shape() && fresh(window) && fresh(head) && fresh(prev) && fresh(symBuf) && fresh(out)
      ensures this.level == level && this.wrap == wrap && this.gzhead == gzhead && this.coder == coder
      ensures this.strategy == strategy && tuning == Configuration(level)
      ensures status == (if wrap.Gzip? then GzipState else InitState) && lastFlush == -2
      ensures gzindex == 0
      ensures wBits == windowBits && wSize == Pow2(windowBits) && hashBits == memLevel + 7
      ensures litBufsize == Pow2(memLevel + 6)
      ensures Fresh() && check == Initial(wrap) && nextIn == [] && header == []
      ensures out.Valid() && out.delivered == [] && out.pending == 0 && out.bits == [] && out.availOut == 0
    {
      hide Pow2, Configuration;
      Pow2Bounds(windowBits);
      Pow2Bounds(memLevel + 6);
      wBits := windowBits;
      wSize := Pow2(windowBits);
      hashBits := memLevel + 7;
      litBufsize := Pow2(memLevel + 6);
      tuning := Configuration(level);
      this.level := level;
      this.strategy := strategy;
      this.wrap := wrap;
      this.gzhead := gzhead;
      this.coder := coder;
      status := if wrap.Gzip? then GzipState else InitState;
      lastFlush, gzindex, trailerDone := -2, 0, false;
      window := new byte[2 * Pow2(windowBits)];
      head := new nat[Pow2(memLevel + 7)](_ => 0);
      prev := new nat[Pow2(windowBits)];
      symBuf := new byte[3 * Pow2(memLevel + 6)];
      out := new Output();
      nextIn, totalIn, check := [], 0, Initial(wrap);
      strStart, lookahead, blockStart, insert, insH := 0, 0, 0, 0, 0;
      matchLength, prevLength, matchAvailable := 2, 2, false;
      var garbage: uint32 := *;
      matchStart, prevMatch := garbage, garbage;
      highWater, symNext, matches := 0, 0, 0;
      S, base, inserted, header, blocks, trailer, written := [], 0, {}, [], [], [], {};
      restart := Restart(0, 0);
    }

    /** The engine has not started. */
    ghost predicate Fresh()
      requires Shape()
      reads `totalIn, `highWater, `written, `insert, `S, `base, `strStart, `lookahead, `blockStart, `symNext
      reads `blocks, `restart, `inserted, `matchLength, `prevLength, `matchAvailable, `trailer, `trailerDone, head
    {
      && (forall h :: 0 <= h < head.Length ==> head[h] == 0)
      && totalIn == 0 && highWater == 0 && written == {} && insert == 0
      && S == [] && base == 0 && strStart == 0 && lookahead == 0 && blockStart == 0
      && symNext == 0 && blocks == [] && restart == Restart(0, 0) && inserted == {} && trailer == [] && !trailerDone
      && matchLength == 2 && prevLength == 2 && !matchAvailable
    }

    /** A fresh state meets every invariant. */
    lemma FreshIsOk()
      requires Shape() && Fresh() && check == Initial(wrap)
      ensures WindowOk() && HighWaterOk() && InsertOk() && KeyOk() && CheckOk() && SymsOk()
      ensures ChainsOk(0) && Lossless(0)
    {
      hide HashAt, PrimedAt, Checks.Update, Inv;
      UpdateEmpty(wrap);
      assert S[..0] == [] && symBuf[..0] == [];
      ClearedIsEmpty(hashBits, wSize, S, base, 0, head[..], prev[..]);
    }

    function MaxDist(): int { wSize - MIN_LOOKAHEAD }

    function SymEnd(): int { (litBufsize - 1) * 3 }

    /** pending_buf_size. */
    function PendingBufSize(): nat { litBufsize * 4 }

    ghost predicate Shape() {
      && 512 <= wSize <= 32768 && HashBits(hashBits) && 128 <= litBufsize <= 32768
      && window.Length == 2 * wSize && head.Length == Pow2(hashBits) && prev.Length == wSize
      && symBuf.Length == litBufsize * 3
      && head != prev && window != symBuf
      && window as object != head && window as object != prev
      && symBuf as object != head && symBuf as object != prev
    }

    lemma Sizes()
      requires Shape()
      ensures 512 <= wSize <= 32768 && 128 <= litBufsize <= 32768 && HashBits(hashBits)
      ensures window.Length == 2 * wSize && prev.Length == wSize && symBuf.Length == 3 * litBufsize
      ensures head != prev && window != symBuf
      ensures window as object != head && window as object != prev
      ensures symBuf as object != head && symBuf as object != prev
    {
    }

    /** The first `live` window bytes are the latest bytes of the stream. */
    ghost predicate Holds(live: nat)
      requires Shape()
      reads `base, `S, window
    {
      live <= 2 * wSize && base + live == |S| && window[..live] == S[base..]
    }

    /** The first n window bytes have been given a value. */
    ghost predicate Initialised(n: int)
      reads `written
    {
      n <= 2 * wSize && forall i :: 0 <= i < n ==> i in written
    }

    ghost predicate WindowOk()
      requires Shape()
      reads `strStart, `lookahead, `written, `base, `S, window
    {
      Initialised(strStart + lookahead) && Holds(strStart + lookahead)
    }

    /** The initialised bytes reach as far as a match may scan. */
    ghost predicate HighWaterOk()
      requires Shape()
      reads `highWater, `written, `lookahead, `strStart
    {
      && Initialised(highWater)
      && (lookahead > 0 ==> highWater >= strStart + lookahead + WIN_INIT || highWater == 2 * wSize)
    }

    /** Everything a match at strstart may scan, ignoring the lookahead, has been given a value. */
    lemma ScanIsInitialised()
      requires Shape() && HighWaterOk() && lookahead > 0 && strStart + MAX_MATCH < 2 * wSize
      ensures Initialised(strStart + MAX_MATCH + 1)
    {
    }

    ghost predicate ChainsOk(top: int)
      requires Shape()
      reads `S, `base, `inserted, head, prev
    {
      top >= 0 && Inv(hashBits, wSize, S, base, inserted, top, head[..], prev[..])
    }

    /** Once a whole string lies ahead, nothing is left over to insert. */
    ghost predicate InsertOk()
      reads `insert, `strStart, `lookahead
    {
      insert <= strStart && insert <= 2 && (lookahead >= MIN_MATCH ==> insert == 0)
    }

    /** Once a whole string lies ahead, the running key is ready for it. */
    ghost predicate KeyOk()
      requires Shape()
      reads `lookahead, `base, `strStart, `S, `insH
    {
      lookahead >= MIN_MATCH ==> base + strStart + 2 <= |S| && PrimedAt(hashBits, insH, S, base + strStart)
    }

    ghost predicate CheckOk()
      reads `check, `totalIn, `S
    {
      check < UINT32 && totalIn == |S| && check == Update(wrap, Initial(wrap), S)
    }

    /** Window, tables and check value are in order. */
    ghost predicate InOrder()
      requires Shape()
      reads `strStart, `lookahead, `written, `base, `S, `highWater, `insert, `inserted, `check, `totalIn
      reads window, head, prev
    {
      WindowOk() && HighWaterOk() && InsertOk() && ChainsOk(strStart - insert) && CheckOk()
    }

    /** And the running key is ready for the next string. */
    ghost predicate Ready()
      requires Shape()
      reads `strStart, `lookahead, `written, `base, `S, `highWater, `insert, `insH, `inserted, `check, `totalIn
      reads window, head, prev
    {
      InOrder() && KeyOk()
    }

    lemma InOrderWindow()
      requires Shape() && InOrder()
      ensures WindowOk() && HighWaterOk()
    {
    }

    ghost predicate SymsOk()
      requires Shape()
      reads `symNext
    {
      symNext % 3 == 0 && symNext <= SymEnd()
    }

    ghost function Tallied(): seq<Symbol>
      requires Shape() && SymsOk()
      reads `symNext, symBuf
    {
      Unpack(symBuf[..symNext])
    }

    /** Blocks sent, then symbols tallied, decode to the first n bytes of the stream. */
    ghost predicate Lossless(n: int)
      requires Shape() && SymsOk()
      reads `base, `blockStart, `S, `blocks, `restart, `symNext, symBuf
    {
      restart.at <= base && Carries(MaxDist(), S, restart, base + blockStart, blocks, Tallied(), n)
    }

    /** The output so far is the header and the blocks, bit for bit. */
    ghost predicate Sent()
      reads `header, `blocks, out
    {
      && out.Valid() && AllWellFormed(blocks)
      && out.Stream() == BitsOf(header) + Encode(coder, 8 * |header|, blocks)
    }

    /** INSERT_STRING. */
    method InsertString(str: nat, ghost top: nat, ghost live: nat) returns (matchHead: nat)
      requires Shape() && Holds(live) && ChainsOk(top)
      requires top <= str && str + MIN_MATCH <= live
      requires PrimedAt(hashBits, insH, S, base + str)
      modifies `insH, `inserted, head, prev
      ensures inserted == old(inserted) + {base + str}
      ensures ChainsOk(str + 1)
      ensures PrimedAt(hashBits, insH, S, base + str + 1)
      ensures Entry(hashBits, S, base, inserted, str, matchHead, HashAt(hashBits, S, base + str))
      ensures var h := HashAt(hashBits, S, base + str);
        matchHead == old(head[h]) && head[..] == old(head[..])[h := str]
      ensures prev[..] == old(prev[..])[Slot(wSize, str) := matchHead]
    {
      hide UpdateHash, HashAt, PrimedAt, Index, Pow2;
      RollAt(hashBits, insH, S, base + str);
      InsertKeeps(hashBits, wSize, S, base, inserted, top, head[..], prev[..], str);
      assert window[str + 2] == window[..live][str + 2];
      insH := UpdateHash(hashBits, insH, window[str + 2]);
      var h := Index(insH);
      matchHead := head[h];
      prev[Slot(wSize, str)] := matchHead;
      head[h] := str;
      inserted := inserted + {base + str};
      assert head[..] == old(head[..])[h := str];
      assert prev[..] == old(prev[..])[Slot(wSize, str) := matchHead];
    }

    /** slide_hash. */
    method SlideHash()
      requires Shape()
      modifies head, prev
      ensures forall h :: 0 <= h < head.Length ==> head[h] == Slid(wSize, old(head[h]))
      ensures forall i :: 0 <= i < prev.Length ==> prev[i] == Slid(wSize, old(prev[i]))
    {
      var n := head.Length;
      while n > 0
        invariant 0 <= n <= head.Length
        invariant forall h :: n <= h < head.Length ==> head[h] == Slid(wSize, old(head[h]))
        invariant forall h :: 0 <= h < n ==> head[h] == old(head[h])
        invariant forall i :: 0 <= i < prev.Length ==> prev[i] == old(prev[i])
      {
        n := n - 1;
        head[n] := if head[n] >= wSize then head[n] - wSize else 0;
      }
      n := wSize;
      while n > 0
        invariant 0 <= n <= wSize
        invariant forall h :: 0 <= h < head.Length ==> head[h] == Slid(wSize, old(head[h]))
        invariant forall i :: n <= i < wSize ==> prev[i] == Slid(wSize, old(prev[i]))
        invariant forall i :: 0 <= i < n ==> prev[i] == old(prev[i])
      {
        n := n - 1;
        prev[n] := if prev[n] >= wSize then prev[n] - wSize else 0;
      }
    }

    /** The three bytes of one sym_buf entry. */
    method PutSymbol(lo: byte, hi: byte, lc: byte) returns (full: bool)
      requires Shape() && SymsOk() && symNext < SymEnd()
      modifies `symNext, symBuf
      ensures symNext == old(symNext) + 3 && SymsOk() && full == (symNext == SymEnd())
      ensures Tallied() == old(Tallied()) + [UnpackSymbol(lo, hi, lc)]
    {
      hide UnpackSymbol;
      symBuf[symNext] := lo;
      symBuf[symNext + 1] := hi;
      symBuf[symNext + 2] := lc;
      UnpackSnoc(old(symBuf[..symNext]), lo, hi, lc);
      symNext := symNext + 3;
      assert symBuf[..symNext] == old(symBuf[..symNext]) + [lo, hi, lc];
      full := symNext == SymEnd();
    }

    /** _tr_tally_lit, for the byte that comes next in the stream. */
    method TallyLit(c: byte, ghost n: nat) returns (full: bool)
      requires Shape() && SymsOk() && symNext < SymEnd()
      requires Lossless(n) && n < |S| && c == S[n]
      modifies `symNext, symBuf
      ensures SymsOk() && full == (symNext == SymEnd()) && symNext == old(symNext) + 3
      ensures Lossless(n + 1) && Tallied() == old(Tallied()) + [Literal(c)]
    {
      hide Carries, Unpack;
      LiteralCarries(MaxDist(), S, restart, base + blockStart, blocks, Tallied(), n);
      full := PutSymbol(0, 0, c);
    }

    /** _tr_tally_dist, for a repeat at the end of what has been tallied. */
    method TallyDist(dist: nat, lc: nat, ghost n: nat) returns (full: bool)
      requires Shape() && SymsOk() && symNext < SymEnd()
      requires Lossless(n) && dist <= MaxDist() && restart.at + dist <= n && lc + MIN_MATCH <= MAX_MATCH
      requires Repeats(S, n, dist, lc + MIN_MATCH)
      modifies `symNext, symBuf
      ensures SymsOk() && full == (symNext == SymEnd()) && symNext == old(symNext) + 3
      ensures Lossless(n + lc + MIN_MATCH) && Tallied() == old(Tallied()) + [Match(lc + MIN_MATCH, dist)]
    {
      hide Carries, Unpack, UnpackSymbol, Low;
      MatchCarries(MaxDist(), S, restart, base + blockStart, blocks, Tallied(), n, lc + MIN_MATCH, dist);
      PackMatch(dist, lc + MIN_MATCH);
      full := PutSymbol(Low(dist), Low(dist / 256), Low(lc));
    }
  }
}

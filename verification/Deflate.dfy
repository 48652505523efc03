/** deflate(): headers, blocks and trailer over any sequence of calls. */
module Deflating {
  import opened Basics
  import opened Lz77
  import opened Bits
  import opened Blocks
  import opened Checks
  import opened RollingHash
  import opened HashChains
  import Memory
  import opened OutputSide
  import opened DeflateStates
  import opened Flushing
  import opened Parses
  import opened Headers
  import Slow
  import Fast
  import RunLength
  import StoredBlocks

  datatype ReturnCode = Ok | StreamEnd | StreamError | BufError

  /** The invariant of the compression function that level and strategy select. */
  ghost predicate EngineInv(s: DeflateState)
    reads s`base, s`strStart, s`matchStart, s`blockStart, s`insert, s`insH, s`inserted, s`prevLength
    reads s`totalIn, s`check, s`S, s`lookahead, s`highWater, s`written, s`matchLength, s`matchAvailable
    reads s`symNext, s`header, s`blocks, s`restart, s.window, s.head, s.prev, s.symBuf, s.out
  {
    if s.level == 0 then StoredBlocks.StoredInv(s)
    else if s.strategy.HuffmanOnly? || s.strategy.Rle? then RunLength.PlainInv(s)
    else if s.level <= 3 then Fast.FastInv(s)
    else Slow.SlowInv(s)
  }

  ghost predicate Configured(s: DeflateState) {
    && s.Shape() && s.level <= 9 && s.tuning == Configuration(s.level) && 9 <= s.wBits <= 15
    && (s.gzhead.Some? ==> ValidHeader(s.gzhead.value))
  }

  /** A fresh engine is ready once the header is out. */
  lemma FreshEngine(s: DeflateState)
    requires Configured(s) && s.Fresh() && s.check == Initial(s.wrap) && s.Sent()
    ensures EngineInv(s)
  {
    hide Inv, Carries, Encode, HashAt, PrimedAt, Unpack;
    s.FreshIsOk();
    if s.level == 0 {
      assert s.S[..0] == [] && s.window[..0] == [];
      FreshStored(s);
    }
  }

  lemma FreshStored(s: DeflateState)
    requires s.Shape() && s.Fresh() && s.CheckOk() && s.Sent()
    ensures StoredBlocks.StoredInv(s)
  {
    assert s.S[..0] == [] && s.window[..0] == [];
  }

  /** The compression function for this level and strategy. */
  method Compress(s: DeflateState, flush: Flush) returns (r: BlockState, ghost moves: seq<Move>)
    requires EngineInv(s) && s.out.Idle()
    modifies s`base, s`strStart, s`matchStart, s`blockStart, s`insert, s`insH, s`inserted, s`prevLength, s`prevMatch
    modifies s`nextIn, s`totalIn, s`check, s`S, s`lookahead, s`highWater, s`written, s`matchLength, s`matchAvailable
    modifies s`symNext, s`blocks, s`matches, s.window, s.head, s.prev, s.symBuf, s.out
    ensures s.S + s.nextIn == old(s.S + s.nextIn) && old(s.S) <= s.S
    ensures match r
      case NeedMore => EngineInv(s) && Paused(s, flush)
      case BlockDone => EngineInv(s) && s.out.Idle() && Drained(s) && !flush.NoFlush? && !flush.Finish?
      case FinishStarted => Ended(s) && s.out.Full() && flush.Finish?
      case FinishDone => Ended(s) && s.out.Idle() && flush.Finish?
    ensures r.NeedMore? || r.BlockDone? ==>
              Quiet(s, old(s.base + s.blockStart), old(s.out.availOut), old(s.out.bits))
    ensures s.level > 0 ==>
      match s.strategy
      case HuffmanOnly => RunLength.AllLiterals(moves)
      case Rle => RunLength.AllRuns(moves)
      case _ => if s.level in {1, 2, 3} then Fast.AllGreedy(moves) else Slow.AllLazy(moves, s.strategy.Filtered?)
    ensures s.out.availOut <= old(s.out.availOut) && s.out.Room() == old(s.out.Room())
  {
    hide StoredBlocks.StoredInv, RunLength.PlainInv, Fast.FastInv, Slow.SlowInv, Ended, Drained, Run;
    hide RunLength.AllLiterals, RunLength.AllRuns, Fast.AllGreedy, Slow.AllLazy;
    moves := [];
    if s.level == 0 {
      r := StoredBlocks.DeflateStored(s, flush);
    } else if s.strategy.HuffmanOnly? {
      r, moves := RunLength.DeflateHuff(s, flush);
    } else if s.strategy.Rle? {
      r, moves := RunLength.DeflateRle(s, flush);
    } else if s.level <= 3 {
      r, moves := Fast.DeflateFast(s, flush);
    } else {
      r, moves := Slow.DeflateSlow(s, flush);
    }
  }

  /** Six bits or more in the bit buffer make a byte with the two bits by which a marker exceeds whole bytes. */
  function Surplus(bits: nat): nat { if bits >= 6 then 1 else 0 }

  /** A block that decodes to nothing, and is not the last. */
  ghost predicate Neutral(block: Block) {
    block.Align? || block == Block.Stored([], false)
  }

  lemma NeutralIsNothing(reach: nat, out: seq<byte>, block: Block)
    requires Neutral(block)
    ensures DecodeBlock(reach, out, block) == Some(out) && WellFormed(block)
  {
    hide Decode;
    assert out + [] == out;
  }

  lemma NeutralKeepsOpen(blocks: seq<Block>, block: Block)
    requires Neutral(block) && Open(blocks)
    ensures Open(blocks + [block])
  {
  }

  lemma NeutralDecodes(reach: nat, blocks: seq<Block>, r: Restart, s: seq<byte>, n: int, block: Block)
    requires Neutral(block) && DecodesTo(reach, blocks, r, s, n) && Open(blocks)
    ensures DecodesTo(reach, blocks + [block], r, s, n) && Open(blocks + [block])
  {
    hide DecodesTo, DecodeBlock, WellFormed, Neutral, Open;
    DecodesBounds(reach, blocks, r, s, n);
    NeutralIsNothing(reach, s[r.at..n], block);
    DecodesSnoc(reach, blocks, r, s, n, block, n);
    NeutralKeepsOpen(blocks, block);
  }

  lemma EngineIsOpen(s: DeflateState)
    requires EngineInv(s)
    ensures s.Shape() && Open(s.blocks) && s.Sent()
  {
  }

  /** CLEAR_HASH. */
  method ClearHash(s: DeflateState)
    requires s.Shape()
    modifies s`inserted, s.head
    ensures s.inserted == {}
    ensures forall h :: 0 <= h < s.head.Length ==> s.head[h] == 0
  {
    forall h | 0 <= h < s.head.Length {
      s.head[h] := 0;
    }
    s.inserted := {};
  }

  /** Once everything has been sent nothing is deferred, and the matchers are all in the same position. */
  lemma DrainedIsPlain(s: DeflateState)
    requires EngineInv(s) && Drained(s) && s.level > 0
    ensures RunLength.PlainInv(s)
    ensures !s.strategy.HuffmanOnly? && !s.strategy.Rle? && s.level > 3 ==> !s.matchAvailable && s.matchLength == 2
  {
    hide Inv, Encode, DecodesTo, Repeats;
  }

  lemma PlainIsEngine(s: DeflateState)
    requires RunLength.PlainInv(s) && s.lookahead == 0 && s.level > 0
    requires !s.strategy.HuffmanOnly? && !s.strategy.Rle? ==>
      && s.tuning.maxChain >= 4
      && (s.level <= 3 ==> s.matchLength < MIN_MATCH && s.prevLength == 2)
      && (s.level > 3 ==> !s.matchAvailable && s.matchLength == 2)
    ensures EngineInv(s)
  {
    hide Inv, Encode, DecodesTo, Repeats;
  }

  /**
   The marker is in the queue: four bytes of lengths after header bits and padding, or ten bits.  Either way,
   six or more bits left over from before make a byte more, and are then gone.
   */
  ghost predicate Marked(s: DeflateState, block: Block, before: nat)
    reads s.out
  {
    && s.out.Valid() && s.out.pendingOut == 0 && |s.out.bits| < 8
    && (block.Stored? ==> s.out.bits == [])
    && s.out.pending == (if block.Stored? then 5 else 1) + Surplus(before)
    && (before >= 6 ==> |s.out.bits| < 6)
  }

  /** Sends a neutral block after everything has been sent. */
  method SendNeutral(s: DeflateState, block: Block)
    requires s.Shape() && s.out.Idle() && Drained(s) && Open(s.blocks) && s.Sent() && Neutral(block)
    modifies s`blocks, s.out
    ensures Drained(s) && Open(s.blocks) && s.Sent() && Marked(s, block, old(|s.out.bits|))
    ensures s.blocks == old(s.blocks) + [block]
    ensures s.out.availOut == old(s.out.availOut) && s.out.delivered == old(s.out.delivered)
  {
    hide Encode, StoredBits, BitsOf, DecodesTo;
    NeutralDecodes(s.MaxDist(), s.blocks, s.restart, s.S, |s.S|, block);
    StreamSnoc(s.coder, s.header, s.blocks, block, s.out.Stream());
    if block.Align? {
      s.out.StreamLength();
      s.out.SendBits(ALIGN_BITS);
      s.out.FlushBits();
      s.out.StreamLength();
    } else {
      s.out.StoredBlock([], false);
    }
    s.blocks := s.blocks + [block];
  }

  method AppendPlain(s: DeflateState, block: Block)
    requires RunLength.PlainInv(s) && s.out.Idle() && Drained(s) && Neutral(block)
    modifies s`blocks, s.out
    ensures RunLength.PlainInv(s) && Drained(s) && Marked(s, block, old(|s.out.bits|))
    ensures s.blocks == old(s.blocks) + [block]
    ensures s.out.availOut == old(s.out.availOut) && s.out.delivered == old(s.out.delivered)
  {
    hide Inv, Encode, DecodesTo, Decode, Neutral, Open;
    hide DeflateState.ChainsOk, DeflateState.CheckOk, DeflateState.WindowOk, DeflateState.Sent;
    SendNeutral(s, block);
    assert s.S[..|s.S|] == s.S;
  }

  method AppendStored(s: DeflateState, block: Block)
    requires StoredBlocks.StoredInv(s) && s.out.Idle() && Drained(s) && Neutral(block)
    modifies s`blocks, s.out
    ensures StoredBlocks.StoredInv(s) && Drained(s) && Marked(s, block, old(|s.out.bits|))
    ensures s.blocks == old(s.blocks) + [block]
    ensures s.out.availOut == old(s.out.availOut) && s.out.delivered == old(s.out.delivered)
  {
    hide Encode, DecodesTo, Neutral, Open, DeflateState.CheckOk, DeflateState.Sent, StoredBlocks.Lagging;
    SendNeutral(s, block);
    assert s.S[..|s.S|] == s.S;
  }

  /** Sends a neutral block after everything has been flushed. */
  method AppendNeutral(s: DeflateState, block: Block)
    requires EngineInv(s) && s.out.Idle() && Drained(s) && Neutral(block)
    modifies s`blocks, s.out
    ensures EngineInv(s) && Drained(s) && Marked(s, block, old(|s.out.bits|))
    ensures s.blocks == old(s.blocks) + [block]
    ensures s.out.availOut == old(s.out.availOut) && s.out.delivered == old(s.out.delivered)
  {
    hide RunLength.PlainInv, StoredBlocks.StoredInv, Drained, Neutral;
    if s.level == 0 {
      AppendStored(s, block);
    } else {
      DrainedIsPlain(s);
      EngineTuning(s);
      EngineIsOpen(s);
      DrainedLookahead(s);
      AppendPlain(s, block);
      PlainIsEngine(s);
    }
  }

  /** The window starts again at index 0. */
  method RestartWindow(s: DeflateState)
    requires s.Shape() && s.Holds(s.strStart) && s.lookahead == 0
    modifies s`strStart, s`blockStart, s`insert, s`base
    ensures s.base == old(s.base) + old(s.strStart) && s.strStart == 0 && s.blockStart == 0 && s.insert == 0
    ensures s.Holds(0)
  {
    s.base := s.base + s.strStart;
    s.strStart := 0;
    s.blockStart := 0;
    s.insert := 0;
  }

  /** The tables are cleared and the window starts again. */
  method EmptyWindow(s: DeflateState)
    requires s.Shape() && s.InOrder() && s.lookahead == 0
    modifies s`inserted, s`strStart, s`blockStart, s`insert, s`base, s.head
    ensures s.InOrder() && s.inserted == {} && s.base == old(s.base + s.strStart)
    ensures s.strStart == 0 && s.blockStart == 0 && s.insert == 0
  {
    hide Inv, HashAt, Pow2, DeflateState.CheckOk, DeflateState.Holds;
    ClearHash(s);
    if s.lookahead == 0 { RestartWindow(s); }
    ClearedIsEmpty(s.hashBits, s.wSize, s.S, s.base, 0, s.head[..], s.prev[..]);
  }

  method ForgetPlain(s: DeflateState)
    requires RunLength.PlainInv(s) && Drained(s)
    modifies s`inserted, s`strStart, s`blockStart, s`insert, s`base, s`restart, s.head
    ensures RunLength.PlainInv(s) && Drained(s) && s.inserted == {} && s.strStart == 0
    ensures s.restart == Restart(|s.blocks|, |s.S|)
  {
    hide Decode, DecodesTo, DeflateState.InOrder, DeflateState.Sent, Open;
    EmptyWindow(s);
    RestartAtEnd(s.MaxDist(), s.blocks, s.restart, s.S);
    s.restart := Restart(|s.blocks|, |s.S|);
    NoSymbols(s);
  }

  method ForgetStored(s: DeflateState)
    requires StoredBlocks.StoredInv(s) && Drained(s)
    modifies s`inserted, s`strStart, s`blockStart, s`insert, s`base, s`restart, s.head
    ensures StoredBlocks.StoredInv(s) && Drained(s) && s.inserted == {} && s.strStart == 0
    ensures s.restart == Restart(|s.blocks|, |s.S|)
  {
    hide Encode, DecodesTo, Pow2, DeflateState.CheckOk, DeflateState.Sent, Open;
    ClearHash(s);
    assert s.S[s.base..s.base + s.strStart] == s.S[s.base..];
    if s.lookahead == 0 { RestartWindow(s); }
    RestartAtEnd(s.MaxDist(), s.blocks, s.restart, s.S);
    s.restart := Restart(|s.blocks|, |s.S|);
    assert s.window[..0] == [] && s.S[s.base..s.base] == [];
  }

  /**
   What a full flush does after its marker: no later match reaches back past it, so that the blocks from
   here on decode without the ones before.
   */
  method ForgetHistory(s: DeflateState)
    requires EngineInv(s) && Drained(s)
    modifies s`inserted, s`strStart, s`blockStart, s`insert, s`base, s`restart, s.head
    ensures EngineInv(s) && Drained(s) && s.inserted == {} && s.strStart == 0
    ensures s.restart == Restart(|s.blocks|, |s.S|)
  {
    hide RunLength.PlainInv, StoredBlocks.StoredInv, Drained;
    if s.level == 0 {
      ForgetStored(s);
    } else {
      DrainedIsPlain(s);
      EngineTuning(s);
      EngineIsOpen(s);
      DrainedLookahead(s);
      ForgetPlain(s);
      PlainIsEngine(s);
    }
  }

  lemma DrainedLookahead(s: DeflateState)
    requires s.Shape() && Drained(s)
    ensures s.lookahead == 0
  {
  }

  lemma EngineTuning(s: DeflateState)
    requires EngineInv(s)
    ensures s.level > 0 && !s.strategy.HuffmanOnly? && !s.strategy.Rle? ==> s.tuning.maxChain >= 4
    ensures 0 < s.level <= 3 && !s.strategy.HuffmanOnly? && !s.strategy.Rle? ==>
              s.matchLength < MIN_MATCH && s.prevLength == 2
  {
    hide Inv;
  }

  lemma NoSymbols(s: DeflateState)
    requires s.Shape() && s.SymsOk() && s.symNext == 0
    ensures s.Tallied() == [] && forall reach: nat, out :: Decode(reach, out, s.Tallied()) == Some(out)
  {
  }

  /** Adler-32 most significant byte first, section 2.2 of RFC 1950; CRC-32 and ISIZE, section 2.3.1 of RFC 1952. */
  function TrailerBytes(wrap: Wrap, check: nat, total: nat): seq<byte> {
    match wrap
    case Raw => []
    case Zlib => ShortMsb(check / 0x1_0000) + ShortMsb(check % 0x1_0000)
    case Gzip => Long(check) + Long(total)
  }

  /** The trailer that belongs to an input. */
  function TrailerFor(wrap: Wrap, input: seq<byte>): seq<byte> {
    TrailerBytes(wrap, Checks.Update(wrap, Initial(wrap), input), |input|)
  }

  /** The output so far is header, blocks and trailer, bit for bit. */
  ghost predicate SentAll(s: DeflateState)
    reads s`header, s`blocks, s`restart, s`trailer, s.out
  {
    && s.out.Valid() && AllWellFormed(s.blocks)
    && s.out.Stream() == BitsOf(s.header) + Encode(s.coder, 8 * |s.header|, s.blocks) + BitsOf(s.trailer)
  }

  /** All blocks are out, and the trailer too once trailerDone is set. */
  ghost predicate FinishedInv(s: DeflateState)
    requires s.Shape()
    reads s`lookahead, s`S, s`header, s`blocks, s`restart, s`check, s`totalIn, s`trailer, s`trailerDone, s.out
  {
    && s.lookahead == 0 && DecodesTo(s.MaxDist(), s.blocks, s.restart, s.S, |s.S|)
    && Closed(s.blocks) && s.CheckOk() && SentAll(s)
    && s.trailer == (if s.trailerDone then TrailerFor(s.wrap, s.S) else [])
  }

  predicate InHeader(s: DeflateState)
    reads s`status
  {
    !s.status.BusyState? && !s.status.FinishState?
  }

  /** What holds at every step of deflate between its calls of the engine. */
  ghost predicate DriverCore(s: DeflateState)
    reads s`status, s`gzindex, s`trailer, s`trailerDone
    reads s`base, s`strStart, s`matchStart, s`blockStart, s`insert, s`insH, s`inserted, s`prevLength
    reads s`totalIn, s`check, s`S, s`lookahead, s`highWater, s`written, s`matchLength, s`matchAvailable
    reads s`symNext, s`header, s`blocks, s`restart, s.window, s.head, s.prev, s.symBuf, s.out
  {
    && Configured(s) && s.out.Valid()
    && if InHeader(s) then HeaderInv(s) && s.Fresh()
       else if s.status.BusyState? then
         s.header == FullHeader(s) && s.trailer == [] && !s.trailerDone && EngineInv(s)
       else s.header == FullHeader(s) && FinishedInv(s)
  }

  /** What holds between calls of deflate. */
  ghost predicate DriverInv(s: DeflateState)
    reads s`status, s`gzindex, s`trailer, s`trailerDone
    reads s`base, s`strStart, s`matchStart, s`blockStart, s`insert, s`insH, s`inserted, s`prevLength
    reads s`totalIn, s`check, s`S, s`lookahead, s`highWater, s`written, s`matchLength, s`matchAvailable
    reads s`symNext, s`header, s`blocks, s`restart, s.window, s.head, s.prev, s.symBuf, s.out
  {
    DriverCore(s) && |s.out.bits| < 8
  }

  /** The last block ends on a byte boundary. */
  lemma ClosedIsAligned(coder: Coder, pos: nat, blocks: seq<Block>)
    requires AllWellFormed(blocks) && Closed(blocks) && pos % 8 == 0
    ensures (pos + |Encode(coder, pos, blocks)|) % 8 == 0
  {
    hide BitsOf, BlockBits, WellFormed, Open;
    var before, block := blocks[..|blocks| - 1], blocks[|blocks| - 1];
    assert blocks == before + [block];
    assert AllWellFormed(before);
    EncodeSnoc(coder, pos, before, block);
    hide Encode;
    LastIsAligned(coder, pos + |Encode(coder, pos, before)|, block);
  }

  lemma LastIsAligned(coder: Coder, pos: nat, block: Block)
    requires WellFormed(block) && IsLast(block)
    ensures (pos + |BlockBits(coder, pos, block)|) % 8 == 0
  {
    hide BitsOf, StoredPayload;
    match block {
      case Coded(_, _) =>
      case Stored(data, last) =>
        assert |BlockBits(coder, pos, block)| == 3 + |Padding(pos + 3)| + 8 * |StoredPayload(data)|;
    }
  }

  /** flush_pending between calls: the stream is the same, only more of it is delivered. */
  method FlushOutput(s: DeflateState)
    requires DriverCore(s)
    modifies s.out
    ensures DriverInv(s) && s.out.Flushed()
    ensures s.out.availOut <= old(s.out.availOut) && s.out.Room() == old(s.out.Room())
    ensures old(s.out.pending) > 0 && old(s.out.availOut) > 0 ==> s.out.availOut < old(s.out.availOut)
    ensures old(|s.out.bits|) < 8 ==>
      && s.out.bits == old(s.out.bits) && s.out.delivered + s.out.Queue() == old(s.out.delivered + s.out.Queue())
      && s.out.availOut == Excess(old(s.out.availOut), old(s.out.pending))
      && s.out.pending == Excess(old(s.out.pending), old(s.out.availOut))
  {
    hide Inv, Encode, BitsOf, HashAt, PrimedAt, Carries, DecodesTo, Repeats, Sub32, Pow2, FullHeader, Progress, Drained;
    hide DeflateState.ChainsOk, DeflateState.CheckOk, DeflateState.WindowOk, DeflateState.KeyOk, DeflateState.Fresh;
    s.out.FlushPending();
  }

  /** Writes the trailer. */
  method WriteTrailer(s: DeflateState)
    requires DriverInv(s) && s.status.FinishState? && s.out.Idle() && !s.trailerDone && !s.wrap.Raw?
    modifies s`trailer, s`trailerDone, s.out
    ensures DriverInv(s) && s.out.Valid() && s.out.bits == [] && s.trailerDone
    ensures s.out.pending == 0 || s.out.availOut == 0
    ensures s.out.availOut <= old(s.out.availOut) && s.out.Room() == old(s.out.Room())
  {
    hide Encode, BitsOf, DecodesTo, Pow2, FullHeader, Drained, TrailerBytes, Closed, Checks.Update;
    FinishedIsAligned(s);
    var bytes := TrailerBytes(s.wrap, s.check, s.totalIn);
    s.out.AppendBytes(bytes);
    assert s.trailer == [] && BitsOf([]) == [] by { EmptyBits(); }
    s.trailer := bytes;
    s.trailerDone := true;
    s.out.FlushPending();
  }

  lemma EmptyBits()
    ensures BitsOf([]) == []
  {
  }

  /** With nothing pending after the last block, the bit buffer is empty too. */
  lemma FinishedIsAligned(s: DeflateState)
    requires s.Shape() && FinishedInv(s) && s.out.Idle()
    ensures s.out.bits == []
  {
    hide Encode, BitsOf, DecodesTo, Drained, Closed, AllWellFormed, TrailerFor, DeflateState.Shape;
    hide DeflateState.CheckOk;
    ClosedIsAligned(s.coder, 8 * |s.header|, s.blocks);
    s.out.StreamLength();
    WholeBytes(|s.out.delivered| + s.out.pending, |s.out.bits|, |s.header|,
               |Encode(s.coder, 8 * |s.header|, s.blocks)|, |s.trailer|);
  }

  lemma WholeBytes(bytes: nat, bits: nat, header: nat, body: nat, trailer: nat)
    requires 8 * bytes + bits == 8 * header + body + 8 * trailer && bits < 8 && (8 * header + body) % 8 == 0
    ensures bits == 0
  {
  }

  /** The header states of deflate; `ready` when compression can start, with nothing pending. */
  method StartStream(s: DeflateState) returns (ready: bool)
    requires DriverInv(s) && InHeader(s) && s.out.Valid() && s.out.pending == 0
    modifies s`status, s`header, s`check, s`gzindex, s.out
    ensures DriverInv(s) && s.out.Valid() && s.out.availOut <= old(s.out.availOut) && s.out.Room() == old(s.out.Room())
    ensures ready ==> s.status.BusyState? && s.out.Idle()
    ensures !ready ==> s.out.availOut == 0
    ensures !s.status.FinishState?
  {
    hide Encode, Pow2, FullHeader, DeflateState.Fresh, EngineInv, ValidHeader, CString;
    ready := WriteHeader(s);
    if s.status.BusyState? {
      HeaderIsSent(s);
      FreshEngine(s);
      BusyHeader(s);
    }
  }

  lemma HeaderIsSent(s: DeflateState)
    requires s.Shape() && s.Fresh() && Writing(s)
    ensures s.Sent() && s.trailer == [] && !s.trailerDone
  {
    hide BitsOf;
    assert BitsOf(s.header) + [] == BitsOf(s.header);
  }

  lemma BusyHeader(s: DeflateState)
    requires HeaderInv(s) && s.status.BusyState?
    ensures s.header == FullHeader(s)
  {
  }

  /**
   A flush is complete: all input is in blocks that have been delivered, but for less than a byte of bits;
   after a partial flush those belong to the empty block at the end, after a sync or full flush there are
   none, and after a full flush decoding may start afresh here.
   */
  ghost predicate FlushDone(s: DeflateState, flush: Flush)
    reads s`nextIn, s`lookahead, s`symNext, s`base, s`blockStart, s`strStart, s`S, s`header, s`blocks, s`restart
    reads s.out
  {
    && s.Shape() && Drained(s) && s.Sent() && s.out.Idle()
    && (flush.SyncFlush? || flush.FullFlush? ==> s.out.bits == [])
    && (flush.PartialFlush? ==> |s.blocks| > 0 && s.blocks[|s.blocks| - 1] == Align)
    && (flush.FullFlush? ==> s.restart == Restart(|s.blocks|, |s.S|))
  }

  /** The whole bytes of the marker that ends a flush: 10 bits, or 3 bits, padding and four bytes; none for Z_BLOCK. */
  function MarkerBytes(flush: Flush): nat {
    match flush
    case PartialFlush => 1
    case SyncFlush => 5
    case FullFlush => 5
    case _ => 0
  }

  /** What the marker puts in the queue, with so many bits left over from the last block. */
  function Queued(flush: Flush, bits: nat): nat {
    MarkerBytes(flush) + (if MarkerBytes(flush) > 0 then Surplus(bits) else 0)
  }

  /** The marker that ends a flush. */
  method Mark(s: DeflateState, flush: Flush)
    requires EngineInv(s) && s.out.Idle() && s.Shape() && Drained(s) && Flushes(flush)
    modifies s`blocks, s`inserted, s`strStart, s`blockStart, s`insert, s`base, s`restart, s.head, s.out
    ensures EngineInv(s) && Drained(s) && s.out.Valid() && |s.out.bits| < 8
    ensures flush.SyncFlush? || flush.FullFlush? ==> s.out.bits == []
    ensures flush.PartialFlush? ==> |s.blocks| > 0 && s.blocks[|s.blocks| - 1] == Align
    ensures if flush.FullFlush? then s.restart == Restart(|s.blocks|, |s.S|) else s.restart == old(s.restart)
    ensures s.out.pending == Queued(flush, old(|s.out.bits|))
    ensures s.out.pending > 0 && old(|s.out.bits|) >= 6 ==> |s.out.bits| < 6
    ensures s.out.availOut == old(s.out.availOut) && s.out.delivered == old(s.out.delivered)
  {
    hide EngineInv, Drained;
    EngineOutput(s);
    if flush.PartialFlush? {
      AppendNeutral(s, Align);
    } else if !flush.BlockFlush? {
      AppendNeutral(s, Block.Stored([], false));
      if flush.FullFlush? {
        ForgetHistory(s);
      }
    }
    EngineOutput(s);
  }

  /** What has been drained is sent up to the end of what has been read. */
  lemma DrainedSent(s: DeflateState)
    requires s.Shape() && Drained(s)
    ensures s.base + s.blockStart == |s.S|
  {
  }

  /**
   The marker that ends a flush, and its delivery.  The flush is complete in this call if and only if there is
   room for the marker and more.
   */
  method EndFlush(s: DeflateState, flush: Flush)
    requires DriverInv(s) && s.status.BusyState? && s.out.Idle() && Drained(s) && Flushes(flush)
    modifies s`blocks, s`inserted, s`strStart, s`blockStart, s`insert, s`base, s`restart, s.head, s.out
    ensures DriverInv(s) && s.status.BusyState? && s.base + s.blockStart == old(s.base + s.blockStart)
    ensures s.out.Flushed() && (s.out.availOut > 0 ==> FlushDone(s, flush))
    ensures s.restart.at >= old(s.restart.at) && (!flush.FullFlush? ==> s.restart == old(s.restart))
    ensures s.out.availOut == Excess(old(s.out.availOut), Queued(flush, old(|s.out.bits|)))
    ensures s.out.pending == Excess(Queued(flush, old(|s.out.bits|)), old(s.out.availOut))
    ensures Queued(flush, old(|s.out.bits|)) > 0 && old(|s.out.bits|) >= 6 ==> |s.out.bits| < 6
    ensures s.out.Room() == old(s.out.Room())
  {
    hide EngineInv, Drained, FullHeader;
    RestartIsPast(s);
    DrainedSent(s);
    Mark(s, flush);
    FlushOutput(s);
    DrainedSent(s);
    EngineIsOpen(s);
  }

  function Excess(a: nat, b: nat): nat { if a > b then a - b else 0 }

  lemma RestartIsPast(s: DeflateState)
    requires s.Shape() && Drained(s)
    ensures s.restart.at <= |s.S|
  {
  }

  lemma EngineOutput(s: DeflateState)
    requires EngineInv(s)
    ensures s.out.Valid()
  {
  }

  /** Runs the compression function; the status follows the last block. */
  method RunEngine(s: DeflateState, flush: Flush) returns (r: BlockState)
    requires DriverInv(s) && s.status.BusyState? && s.out.Idle()
    modifies s`base, s`strStart, s`matchStart, s`blockStart, s`insert, s`insH, s`inserted, s`prevLength, s`prevMatch
    modifies s`nextIn, s`totalIn, s`check, s`S, s`lookahead, s`highWater, s`written, s`matchLength, s`matchAvailable
    modifies s`symNext, s`blocks, s`matches, s`status, s.window, s.head, s.prev, s.symBuf, s.out
    ensures DriverInv(s) && s.out.Flushed()
    ensures s.S + s.nextIn == old(s.S + s.nextIn) && old(s.S) <= s.S
    ensures s.out.availOut <= old(s.out.availOut) && s.out.Room() == old(s.out.Room())
    ensures match r
      case NeedMore => s.status.BusyState? && Paused(s, flush)
      case BlockDone =>
        s.status.BusyState? && s.out.Idle() && s.Shape() && Drained(s) && !flush.NoFlush? && !flush.Finish?
      case FinishStarted => s.status.FinishState? && s.out.Full() && s.nextIn == [] && flush.Finish?
      case FinishDone => s.status.FinishState? && s.out.Idle() && s.nextIn == [] && flush.Finish?
    ensures r.NeedMore? || r.BlockDone? ==>
              Quiet(s, old(s.base + s.blockStart), old(s.out.availOut), old(s.out.bits))
  {
    hide EngineInv, Drained, Ended, FullHeader, FinishedInv, Configuration;
    ghost var moves;
    r, moves := Compress(s, flush);
    if r.FinishStarted? || r.FinishDone? {
      EndedIsFinished(s);
      s.status := FinishState;
    } else {
      EngineOutput(s);
    }
  }

  /** What a marker that did not fit leaves: the rest in the queue, and no surplus if it took one along. */
  predicate Shrinks(flush: Flush, bits: nat, room: nat, bits': nat, pending': nat) {
    && pending' == Excess(Queued(flush, bits), room) && (Queued(flush, bits) > 0 && bits >= 6 ==> bits' < 6)
    && Queued(flush, bits) >= room
  }

  /** Starts a new block or continues the current one; None when deflate is to go on to its end. */
  method RunBlocks(s: DeflateState, flush: Flush) returns (ret: Option<ReturnCode>)
    requires DriverInv(s) && s.status.BusyState? && s.out.Idle()
    modifies s`base, s`strStart, s`matchStart, s`blockStart, s`insert, s`insH, s`inserted, s`prevLength, s`prevMatch
    modifies s`nextIn, s`totalIn, s`check, s`S, s`lookahead, s`highWater, s`written, s`matchLength, s`matchAvailable
    modifies s`symNext, s`blocks, s`matches, s`status, s`lastFlush, s`restart
    modifies s.window, s.head, s.prev, s.symBuf, s.out
    ensures DriverInv(s) && !InHeader(s) && s.out.Valid() && (ret.Some? ==> ret.value.Ok?)
    ensures s.S + s.nextIn == old(s.S + s.nextIn) && old(s.S) <= s.S
    ensures ret.None? ==> s.out.Idle() && s.status.FinishState? == flush.Finish?
    ensures s.out.availOut <= old(s.out.availOut) && s.out.Room() == old(s.out.Room())
    ensures ret.Some? ==> s.out.availOut == 0 || (flush.NoFlush? && s.nextIn == [])
    ensures ret.Some? && flush.Finish? && s.status.BusyState? && old(s.out.availOut) > 0 ==>
              s.base + s.blockStart > old(s.base + s.blockStart)
    ensures ret.None? ==> !flush.NoFlush? && s.nextIn == [] && (!flush.Finish? ==> FlushDone(s, flush))
    ensures ret.None? && Flushes(flush) ==> 0 < s.out.availOut <= old(s.out.availOut) - MarkerBytes(flush)
    ensures ret.Some? && Flushes(flush) ==> s.lastFlush == -1 && s.status.BusyState?
    ensures s.out.availOut > 0 ==> s.lastFlush == old(s.lastFlush) && s.out.pending == 0
    ensures ret.Some? && Flushes(flush) && old(s.out.availOut) > 0 ==>
      || s.base + s.blockStart > old(s.base + s.blockStart)
      || (s.base + s.blockStart == old(s.base + s.blockStart)
          && Shrinks(flush, old(|s.out.bits|), old(s.out.availOut), |s.out.bits|, s.out.pending))
    ensures s.status.FinishState? ==> flush.Finish? && s.nextIn == []
    ensures s.restart.at >= old(s.restart.at) && (!flush.FullFlush? ==> s.restart == old(s.restart))
  {
    hide DriverInv, Drained, FlushDone;
    var bstate := RunEngine(s, flush);
    if bstate.NeedMore? || bstate.FinishStarted? {
      if s.out.availOut == 0 { s.lastFlush := -1; }
      return Some(Ok);
    }
    if bstate.BlockDone? {
      DrainedReadAll(s);
      EndFlush(s, flush);
      if s.out.availOut == 0 {
        s.lastFlush := -1;
        return Some(Ok);
      }
    }
    return None;
  }

  lemma DrainedReadAll(s: DeflateState)
    requires s.Shape() && Drained(s)
    ensures s.nextIn == []
  {
  }

  lemma EndedIsFinished(s: DeflateState)
    requires Ended(s) && s.trailer == [] && !s.trailerDone
    ensures FinishedInv(s) && s.out.Valid() && s.nextIn == []
  {
    hide BitsOf, Encode, DecodesTo;
    EmptyBits();
    assert forall b: seq<bool> :: b + [] == b;
  }

  /** Z_NO_FLUSH .. Z_BLOCK. */
  function FlushCode(flush: Flush): int {
    match flush
    case NoFlush => 0
    case PartialFlush => 1
    case SyncFlush => 2
    case FullFlush => 3
    case Finish => 4
    case BlockFlush => 5
  }

  /** RANK: Z_BLOCK between Z_NO_FLUSH and Z_PARTIAL_FLUSH. */
  function Rank(f: int): int { f * 2 - (if f > 4 then 9 else 0) }

  /** Everything the stream will ever hold has been delivered. */
  ghost predicate Complete(s: DeflateState)
    reads s`status, s`trailerDone, s.out
  {
    s.status.FinishState? && (s.wrap.Raw? || s.trailerDone) && s.out.Valid() && s.out.pending == 0 && s.out.bits == []
  }

  /** The end of deflate, after the blocks: the trailer, once. */
  method EndStream(s: DeflateState) returns (ret: ReturnCode)
    requires DriverInv(s) && s.status.FinishState? && s.out.Idle()
    modifies s`trailer, s`trailerDone, s.out
    ensures DriverInv(s) && s.out.Valid() && s.out.availOut <= old(s.out.availOut) && s.out.Room() == old(s.out.Room())
    ensures ret.StreamEnd? ==> Complete(s)
    ensures ret.Ok? ==> s.out.availOut == 0 && s.trailerDone && !s.wrap.Raw? && !old(s.trailerDone)
    ensures ret.StreamEnd? || ret.Ok?
    ensures ret.Ok? <==> s.out.pending != 0
    ensures old(s.wrap.Raw? || s.trailerDone) ==> unchanged(s`trailerDone, s`trailer) && unchanged(s.out)
  {
    hide FinishedInv, FullHeader, Configuration;
    FinishedIsAligned(s);
    if s.wrap.Raw? || s.trailerDone {
      return StreamEnd;
    }
    WriteTrailer(s);
    return if s.out.pending != 0 then Ok else StreamEnd;
  }

  /** No input, nothing pending, and no more asked for than last time. */
  predicate Pointless(s: DeflateState, flush: Flush)
    reads s`lastFlush, s`nextIn, s.out
  {
    s.nextIn == [] && s.out.pending == 0 && !flush.Finish? && Rank(FlushCode(flush)) <= Rank(s.lastFlush)
  }

  /**
   When deflate refuses with Z_BUF_ERROR: no room for output; nothing to do, since there is no input, nothing
   is pending and the flush asks for no more than the last one did; or input after Z_FINISH once the pending
   output is out of the way.
   */
  predicate Refused(s: DeflateState, flush: Flush)
    reads s`status, s`lastFlush, s`nextIn, s.out
  {
    && (s.status.FinishState? ==> flush.Finish?)
    && (|| s.out.availOut == 0
        || Pointless(s, flush)
        || (s.status.FinishState? && s.nextIn != [] && s.out.pending < s.out.availOut))
  }

  /**
   How much is left to do to finish the stream or to complete a flush: the part of the stream, the bytes of that
   part, and what waits to be delivered, in half bytes.
   */
  datatype Work = Work(part: nat, bytes: int, waiting: nat)

  predicate Below(a: Work, b: Work) {
    || a.part < b.part
    || (a.part == b.part && a.bytes < b.bytes)
    || (a.part == b.part && a.bytes == b.bytes && a.waiting < b.waiting)
  }

  /** The queue, and the surplus that a marker would add to it. */
  function Waiting(out: Output): nat
    reads out
  {
    2 * out.pending + Surplus(|out.bits|)
  }

  ghost function Remaining(s: DeflateState): Work
    requires 8 <= s.wBits <= 15
    reads s`status, s`S, s`nextIn, s`base, s`blockStart, s`trailerDone, s.out
  {
    if InHeader(s) then Work(3, |FullHeader(s)| - |s.out.delivered|, 0)
    else if s.status.BusyState? then Work(2, |s.S| + |s.nextIn| - (s.base + s.blockStart), Waiting(s.out))
    else Work(if s.wrap.Raw? || s.trailerDone then 0 else 1, 0, Waiting(s.out))
  }

  /** Flushes as much pending output as possible. */
  method FlushWaiting(s: DeflateState)
    requires DriverInv(s) && s.out.pending != 0 && s.out.availOut > 0
    modifies s.out
    ensures DriverInv(s) && 9 <= s.wBits <= 15 && s.out.Flushed() && s.out.bits == old(s.out.bits)
    ensures Below(Remaining(s), old(Remaining(s)))
    ensures s.out.availOut == Excess(old(s.out.availOut), old(s.out.pending))
    ensures s.out.Room() == old(s.out.Room())
  {
    hide DriverInv, DriverCore, BitsOf, FullHeader;
    InvImpliesCore(s);
    FlushOutput(s);
    Memory.SameBytes(s.out.delivered, s.out.Queue(), old(s.out.delivered), old(s.out.Queue()));
  }

  /** The argument checks of deflate, and what is still pending. */
  method Admit(s: DeflateState, flush: Flush) returns (ret: Option<ReturnCode>)
    requires DriverInv(s)
    modifies s`lastFlush, s.out
    ensures DriverInv(s) && 9 <= s.wBits <= 15
    ensures ret == Some(StreamError) <==> old(s.status.FinishState?) && !flush.Finish?
    ensures ret == Some(BufError) <==> old(Refused(s, flush))
    ensures ret == Some(Ok) ==> s.out.availOut == 0 < old(s.out.availOut) && Below(Remaining(s), old(Remaining(s)))
    ensures ret != Some(StreamEnd)
    ensures ret.None? ==> s.out.pending == 0 && s.out.availOut > 0
    ensures ret.None? ==> s.out.availOut == old(s.out.availOut - s.out.pending) && s.out.bits == old(s.out.bits)
    ensures ret == Some(Ok) ==> s.lastFlush == -1
    ensures ret.None? ==> s.lastFlush == FlushCode(flush)
    ensures ret == Some(BufError) && !old(s.status.FinishState?) ==> s.out.delivered == old(s.out.delivered)
    ensures ret.None? ==> s.status.FinishState? ==> flush.Finish? && s.nextIn == []
    ensures s.out.availOut <= old(s.out.availOut) && s.out.Room() == old(s.out.Room())
    ensures s.out.Valid() && (old(s.out.pending) == 0 ==> unchanged(s.out))
  {
    hide DriverInv, DriverCore, BitsOf, FullHeader, Remaining, Below;
    InvImpliesCore(s);
    if s.status.FinishState? && !flush.Finish? { return Some(StreamError); }
    if s.out.availOut == 0 { return Some(BufError); }
    var oldFlush := s.lastFlush;
    s.lastFlush := FlushCode(flush);
    if s.out.pending != 0 {
      FlushWaiting(s);
      if s.out.availOut == 0 {
        s.lastFlush := -1;
        return Some(Ok);
      }
    } else if s.nextIn == [] && Rank(FlushCode(flush)) <= Rank(oldFlush) && !flush.Finish? {
      return Some(BufError);
    }
    if s.status.FinishState? && s.nextIn != [] { return Some(BufError); }
    return None;
  }

  /** The first part of deflate: the checks, and the header states. */
  method Prepare(s: DeflateState, flush: Flush) returns (ret: Option<ReturnCode>)
    requires DriverInv(s)
    modifies s`status, s`lastFlush, s`header, s`check, s`gzindex, s.out
    ensures DriverInv(s) && 9 <= s.wBits <= 15
    ensures ret == Some(StreamError) <==> old(s.status.FinishState?) && !flush.Finish?
    ensures ret == Some(BufError) <==> old(Refused(s, flush))
    ensures ret == Some(Ok) ==> s.out.availOut == 0 < old(s.out.availOut) && Below(Remaining(s), old(Remaining(s)))
    ensures ret != Some(StreamEnd)
    ensures ret.None? ==> s.out.Idle() && !InHeader(s) && (s.status.FinishState? ==> flush.Finish? && s.nextIn == [])
    ensures ret.None? && old(!InHeader(s)) ==>
      && s.out.availOut > 0 && s.out.availOut == old(s.out.availOut - s.out.pending) && s.out.bits == old(s.out.bits)
    ensures ret == Some(Ok) ==> s.lastFlush == -1
    ensures ret.None? ==> s.lastFlush == FlushCode(flush)
    ensures ret == Some(BufError) && !old(s.status.FinishState?) ==> s.out.delivered == old(s.out.delivered)
    ensures s.status == old(s.status) || (old(InHeader(s)) && s.status != FinishState && ret != Some(BufError))
    ensures old(Complete(s)) ==> Complete(s) && s.out.delivered == old(s.out.delivered)
    ensures s.out.availOut <= old(s.out.availOut) && s.out.Room() == old(s.out.Room())
  {
    hide DriverInv, BitsOf, Refused, FullHeader;
    ret := Admit(s, flush);
    if ret.Some? { return; }
    if !s.status.BusyState? && !s.status.FinishState? {
      var ready := StartStream(s);
      if !ready {
        s.lastFlush := -1;
        return Some(Ok);
      }
    }
    IdleAtStart(s);
  }

  /** Room for more than the whole bytes of the marker leaves less to deliver than before, even if it does not fit. */
  lemma FlushShrinks(flush: Flush, pending: nat, room: nat, bits: nat, bits': nat, pending': nat)
    requires MarkerBytes(flush) < room && pending <= room && Shrinks(flush, bits, room - pending, bits', pending')
    ensures 2 * pending' + Surplus(bits') < 2 * pending + Surplus(bits)
  {
  }

  /** The second part of deflate: blocks, and the end of the stream. */
  method Proceed(s: DeflateState, flush: Flush) returns (ret: ReturnCode)
    requires DriverInv(s) && s.out.Idle() && !InHeader(s) && 9 <= s.wBits <= 15
    requires s.status.FinishState? ==> flush.Finish? && s.nextIn == []
    modifies s, s.window, s.head, s.prev, s.symBuf, s.out
    ensures DriverInv(s) && !InHeader(s) && (ret.Ok? || ret.StreamEnd?) && 9 <= s.wBits <= 15
    ensures s.S + s.nextIn == old(s.S + s.nextIn) && old(s.S) <= s.S
    ensures s.out.availOut <= old(s.out.availOut) && s.out.Room() == old(s.out.Room())
    ensures ret.StreamEnd? ==> flush.Finish? && Complete(s) && s.nextIn == []
    ensures ret.Ok? ==> s.out.availOut == 0 || (!flush.Finish? && s.nextIn == [])
    ensures ret.Ok? && s.out.availOut > 0 && !flush.NoFlush? ==>
              FlushDone(s, flush) && s.out.availOut <= old(s.out.availOut) - MarkerBytes(flush)
    ensures ret.Ok? && s.out.availOut == 0 && Flushes(flush) ==> s.lastFlush == -1 && s.status.BusyState?
    ensures ret.Ok? && s.out.availOut > 0 ==> s.lastFlush == old(s.lastFlush) && s.out.pending == 0
    ensures ret.Ok? && s.out.availOut == 0 && Flushes(flush) && old(s.out.availOut) > 0 ==>
      || s.base + s.blockStart > old(s.base + s.blockStart)
      || (s.base + s.blockStart == old(s.base + s.blockStart)
          && Shrinks(flush, old(|s.out.bits|), old(s.out.availOut), |s.out.bits|, s.out.pending))
    ensures ret.Ok? && flush.Finish? && old(s.out.availOut) > 0 ==> Below(Remaining(s), old(Remaining(s)))
    ensures s.status.FinishState? ==> old(s.status.FinishState?) || (flush.Finish? && s.nextIn == [])
    ensures old(Complete(s)) ==> Complete(s) && s.S == old(s.S) && s.out.delivered == old(s.out.delivered)
    ensures s.restart.at >= old(s.restart.at) && (!flush.FullFlush? ==> s.restart == old(s.restart))
  {
    hide DriverInv, FlushDone, FullHeader, Shrinks, Surplus, Queued;
    IdleAtStart(s);
    ghost var whole := |s.S| + |s.nextIn|;
    if s.nextIn != [] || s.lookahead != 0 || (!flush.NoFlush? && !s.status.FinishState?) {
      var code := RunBlocks(s, flush);
      assert |s.S + s.nextIn| == whole;
      if code.Some? { return code.value; }
    }
    if !flush.Finish? { return Ok; }
    ret := EndStream(s);
  }

  /** deflate(). */
  method Deflate(s: DeflateState, flush: Flush) returns (ret: ReturnCode)
    requires DriverInv(s)
    modifies s, s.window, s.head, s.prev, s.symBuf, s.out
    ensures DriverInv(s)
    ensures s.S + s.nextIn == old(s.S + s.nextIn) && old(s.S) <= s.S
    ensures s.out.availOut <= old(s.out.availOut) && s.out.Room() == old(s.out.Room())
    // what the return codes mean
    ensures ret.StreamError? <==> old(s.status.FinishState?) && !flush.Finish?
    ensures ret.BufError? <==> old(Refused(s, flush))
    ensures ret.StreamError? || ret.BufError? ==> s.S == old(s.S) && s.status == old(s.status)
    ensures ret.StreamEnd? ==> flush.Finish? && Complete(s) && s.nextIn == []
    ensures ret.Ok? ==> s.out.availOut == 0 || (!flush.Finish? && s.nextIn == [])
    ensures ret.Ok? && s.out.availOut > 0 && !flush.NoFlush? ==>
              FlushDone(s, flush) && s.out.availOut <= old(s.out.availOut) - MarkerBytes(flush)
    ensures ret.Ok? && s.out.availOut == 0 && Flushes(flush) ==> s.lastFlush == -1
    ensures ret.Ok? && s.out.availOut > 0 ==> s.lastFlush == FlushCode(flush) && s.out.pending == 0
    ensures ret.BufError? && !old(s.status.FinishState?) ==> s.out.delivered == old(s.out.delivered)
    // progress
    ensures 9 <= s.wBits <= 15
    ensures ret.Ok? && flush.Finish? ==> Below(Remaining(s), old(Remaining(s)))
    ensures ret.Ok? && s.out.availOut == 0 && Flushes(flush) && old(s.out.availOut) > MarkerBytes(flush) ==>
              Below(Remaining(s), old(Remaining(s)))
    ensures ret.Ok? && (flush.Finish? || (flush.NoFlush? && old(s.nextIn) != [])) ==>
              s.out.availOut + |s.nextIn| < old(s.out.availOut + |s.nextIn|)
    // what stays
    ensures s.status.FinishState? ==> old(s.status.FinishState?) || (flush.Finish? && s.nextIn == [])
    ensures old(Complete(s)) ==> Complete(s) && s.S == old(s.S) && s.out.delivered == old(s.out.delivered)
    ensures s.restart.at >= old(s.restart.at) && (!flush.FullFlush? ==> s.restart == old(s.restart))
  {
    hide DriverInv, FlushDone, FullHeader, Shrinks, Surplus, Queued, MarkerBytes;
    ghost var pending, room, bits, sent := s.out.pending, s.out.availOut, |s.out.bits|, s.base + s.blockStart;
    ghost var inHeader := InHeader(s);
    var code := Prepare(s, flush);
    if code.Some? { return code.value; }
    IdleAtStart(s);
    ghost var whole := |s.S| + |s.nextIn|;
    ret := Proceed(s, flush);
    assert |s.S + s.nextIn| == whole;
    if Flushes(flush) && s.out.availOut == 0 && room > MarkerBytes(flush) && !inHeader &&
       s.base + s.blockStart == sent {
      FlushShrinks(flush, pending, room, bits, |s.out.bits|, s.out.pending);
    }
  }

  lemma InvImpliesCore(s: DeflateState)
    requires DriverInv(s)
    ensures DriverCore(s) && s.out.Valid() && |s.out.bits| < 8 && 9 <= s.wBits <= 15
  {
  }

  /** With nothing pending the bit buffer holds less than a byte. */
  lemma IdleAtStart(s: DeflateState)
    requires DriverInv(s) && s.out.pending == 0
    ensures s.out.Idle()
    ensures s.status.FinishState? ==> s.lookahead == 0
  {
  }
}

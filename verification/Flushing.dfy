/** FLUSH_BLOCK_ONLY, and what all compression functions keep between steps. */
module Flushing {
  import opened Basics
  import opened Lz77
  import opened Bits
  import opened Blocks
  import opened DeflateStates

  /** No block has been marked final yet. */
  ghost predicate Open(blocks: seq<Block>) {
    forall i :: 0 <= i < |blocks| ==> !IsLast(blocks[i])
  }

  /** Exactly the last block is marked final. */
  ghost predicate Closed(blocks: seq<Block>) {
    |blocks| > 0 && IsLast(blocks[|blocks| - 1]) && Open(blocks[..|blocks| - 1])
  }

  /** The stored form of the current block means what its symbols mean. */
  lemma RawIsDecoded(s: DeflateState, n: nat)
    requires s.Shape() && s.WindowOk() && s.SymsOk() && s.Lossless(n)
    requires 0 <= s.blockStart && n == s.base + s.strStart
    ensures s.blockStart <= s.strStart && s.restart.at <= s.base + s.blockStart
    ensures Decode(s.MaxDist(), s.S[s.restart.at..s.base + s.blockStart], s.Tallied()) ==
            Some(s.S[s.restart.at..s.base + s.blockStart] + s.window[s.blockStart..s.strStart])
  {
    var live := s.strStart + s.lookahead;
    var raw := s.window[s.blockStart..s.strStart];
    assert raw == s.window[..live][s.blockStart..s.strStart] == s.S[s.base..][s.blockStart..s.strStart];
    assert s.S[s.restart.at..s.base + s.blockStart] + raw == s.S[s.restart.at..n];
  }

  /** Sending a block that takes the decoder from `from` to n carries the stream to n. */
  lemma BlockCarries(reach: nat, s: seq<byte>, r: Restart, from: int, blocks: seq<Block>, syms: seq<Symbol>, n: int,
                     block: Block)
    requires Carries(reach, s, r, from, blocks, syms, n) && WellFormed(block)
    requires DecodeBlock(reach, s[r.at..from], block) == Some(s[r.at..n])
    ensures Carries(reach, s, r, n, blocks + [block], [], n)
  {
    hide DecodeBlock, WellFormed;
    DecodesSnoc(reach, blocks, r, s, from, block, n);
  }

  lemma CarriesBounds(s: DeflateState, n: nat)
    requires s.Shape() && s.SymsOk() && s.Lossless(n)
    ensures s.restart.at <= s.base + s.blockStart <= n <= |s.S|
    ensures Decode(s.MaxDist(), s.S[s.restart.at..s.base + s.blockStart], s.Tallied()) == Some(s.S[s.restart.at..n])
  {
  }

  /** A block of these symbols: coded, or in the stored form. */
  ghost predicate MadeOf(block: Block, syms: seq<Symbol>) {
    block.Stored? || (block.Coded? && block.syms == syms)
  }

  /** These symbols are tallied and no block has been sent, or they have gone out as one block. */
  ghost predicate Pours(blocks': seq<Block>, tallied': seq<Symbol>, blocks: seq<Block>, syms: seq<Symbol>) {
    || (blocks' == blocks && tallied' == syms)
    || (tallied' == [] && |blocks'| == |blocks| + 1 && blocks'[..|blocks|] == blocks && MadeOf(blocks'[|blocks|], syms))
  }

  /** A block is sent when its symbols number lit_bufsize - 1, and not before. */
  ghost predicate Sized(s: DeflateState, blocks: seq<Block>, tallied: nat, more: nat)
    reads s`blocks
  {
    s.blocks != blocks <==> more > 0 && tallied + more == s.litBufsize - 1
  }

  lemma {:induction false} UnpackLength(buf: seq<byte>)
    requires |buf| % 3 == 0
    ensures 3 * |Unpack(buf)| == |buf|
  {
    if buf != [] { UnpackLength(buf[..|buf| - 3]); }
  }

  lemma TalliedLength(s: DeflateState)
    requires s.Shape() && s.SymsOk()
    ensures 3 * |s.Tallied()| == s.symNext
  {
    UnpackLength(s.symBuf[..s.symNext]);
  }

  lemma PoursNothing(blocks: seq<Block>, syms: seq<Symbol>)
    ensures Pours(blocks, syms, blocks, syms)
  {
  }

  /** The choice _tr_flush_block makes between the two forms of a block; both mean the same bytes. */
  method SendBlock(s: DeflateState, raw: Option<seq<byte>>, last: bool) returns (ghost block: Block)
    requires s.Shape() && s.SymsOk() && s.Lossless(s.base + s.strStart) && s.out.Idle()
    requires raw.Some? ==> |raw.value| <= MAX_STORED
    requires s.restart.at <= s.base + s.blockStart <= s.base + s.strStart <= |s.S|
    requires raw.Some? ==> Decode(s.MaxDist(), s.S[s.restart.at..s.base + s.blockStart], s.Tallied()) ==
                           Some(s.S[s.restart.at..s.base + s.blockStart] + raw.value)
    modifies s.out
    ensures s.out.Valid() && s.out.pendingOut == 0
    ensures s.out.availOut == old(s.out.availOut) && s.out.delivered == old(s.out.delivered)
    ensures WellFormed(block) && IsLast(block) == last && MadeOf(block, s.Tallied())
    ensures DecodeBlock(s.MaxDist(), s.S[s.restart.at..s.base + s.blockStart], block) ==
            Some(s.S[s.restart.at..s.base + s.strStart])
    ensures s.out.Stream() == old(s.out.Stream()) + BlockBits(s.coder, |old(s.out.Stream())|, block)
  {
    hide BitsOf, Padding, DecodesTo, Unpack, Encode, CodeOf, StoredBits, CodedBits;
    var stored: bool := *;
    if stored && raw.Some? {
      block := Block.Stored(raw.value, last);
      s.out.StoredBlock(raw.value, last);
    } else {
      block := Coded(s.Tallied(), last);
      s.out.CodedBlock(CodeOf(s.coder, Unpack(s.symBuf[..s.symNext]), last), last);
    }
  }

  /** _tr_flush_block: trees.c picks the coded or the stored form and sends it. */
  method TrFlushBlock(s: DeflateState, raw: Option<seq<byte>>, last: bool)
    requires s.Shape() && s.SymsOk() && s.Lossless(s.base + s.strStart) && s.Sent() && s.out.Idle()
    requires raw.Some? ==> |raw.value| <= MAX_STORED
    requires s.restart.at <= s.base + s.blockStart <= s.base + s.strStart <= |s.S|
    requires raw.Some? ==> Decode(s.MaxDist(), s.S[s.restart.at..s.base + s.blockStart], s.Tallied()) ==
                           Some(s.S[s.restart.at..s.base + s.blockStart] + raw.value)
    modifies s`symNext, s`blocks, s.out
    ensures s.symNext == 0 && s.Sent() && s.out.pendingOut == 0
    ensures |s.blocks| == |old(s.blocks)| + 1 && s.blocks[..|old(s.blocks)|] == old(s.blocks)
    ensures IsLast(s.blocks[|old(s.blocks)|]) == last && MadeOf(s.blocks[|old(s.blocks)|], old(s.Tallied()))
    ensures Carries(s.MaxDist(), s.S, s.restart, s.base + s.strStart, s.blocks, [], s.base + s.strStart)
    ensures s.out.availOut == old(s.out.availOut) && s.out.delivered == old(s.out.delivered)
  {
    hide BitsOf, Padding, DecodesTo, Unpack, Encode, BlockBits, DecodeBlock, WellFormed;
    var block := SendBlock(s, raw, last);
    BlockCarries(s.MaxDist(), s.S, s.restart, s.base + s.blockStart, s.blocks, s.Tallied(), s.base + s.strStart, block);
    StreamSnoc(s.coder, s.header, s.blocks, block, old(s.out.Stream()));
    s.blocks := s.blocks + [block];
    s.symNext := 0;
  }

  /** The current block is small enough to be stored: LEN has 16 bits. */
  ghost predicate Storable(s: DeflateState)
    reads s`blockStart, s`strStart
  {
    s.blockStart >= 0 ==> s.strStart - s.blockStart <= MAX_STORED
  }

  /** FLUSH_BLOCK_ONLY. */
  method FlushBlockOnly(s: DeflateState, last: bool)
    requires s.Shape() && s.WindowOk() && s.SymsOk() && s.Lossless(s.base + s.strStart) && Storable(s)
    requires s.Sent() && s.out.Idle() && Open(s.blocks)
    modifies s`symNext, s`blocks, s`blockStart, s.out
    ensures s.symNext == 0 && s.SymsOk() && s.blockStart == s.strStart && s.Lossless(s.base + s.strStart)
    ensures s.Sent() && (if last then Closed(s.blocks) else Open(s.blocks))
    ensures |s.blocks| == |old(s.blocks)| + 1
    ensures s.Tallied() == [] && Pours(s.blocks, s.Tallied(), old(s.blocks), old(s.Tallied()))
    ensures s.out.Flushed() && s.blockStart >= old(s.blockStart)
    ensures old(s.symNext) > 0 ==> s.blockStart > old(s.blockStart)
    ensures s.out.availOut <= old(s.out.availOut) && s.out.Room() == old(s.out.Room())
  {
    hide BitsOf, DecodesTo, Decode, Encode;
    var raw := None;
    CarriesBounds(s, s.base + s.strStart);
    BlockAdvances(s);
    if s.blockStart >= 0 {
      RawIsDecoded(s, s.base + s.strStart);
      raw := Some(s.window[s.blockStart..s.strStart]);
    }
    TrFlushBlock(s, raw, last);
    s.blockStart := s.strStart;
    s.out.FlushPending();
  }

  /** A block with a symbol in it is not empty. */
  lemma BlockAdvances(s: DeflateState)
    requires s.Shape() && s.SymsOk() && s.Lossless(s.base + s.strStart)
    ensures s.symNext > 0 ==> s.blockStart < s.strStart
  {
    hide Carries;
    if s.symNext > 0 {
      assert s.Tallied() != [];
      CarriesAdvances(s.MaxDist(), s.S, s.restart, s.base + s.blockStart, s.blocks, s.Tallied(), s.base + s.strStart);
    }
  }

  /** Tallies the byte at window index `at` as a literal. */
  method EmitLiteral(s: DeflateState, at: nat) returns (full: bool)
    requires s.Shape() && s.WindowOk() && at < s.strStart + s.lookahead
    requires s.SymsOk() && s.symNext < s.SymEnd() && s.Lossless(s.base + at)
    modifies s`symNext, s.symBuf
    ensures s.SymsOk() && s.symNext == old(s.symNext) + 3 && full == (s.symNext == s.SymEnd())
    ensures s.Lossless(s.base + at + 1) && s.Tallied() == old(s.Tallied()) + [Literal(s.S[s.base + at])]
  {
    hide Carries, Unpack;
    assert s.window[..s.strStart + s.lookahead][at] == s.S[s.base..][at];
    full := s.TallyLit(s.window[at], s.base + at);
  }

  /** A call that flushes without finishing the stream. */
  predicate Flushes(flush: Flush) { !flush.NoFlush? && !flush.Finish? }

  /**
   Why a compression function stopped before the flush was complete: the application's buffer is full, or
   there is no flush and the input has been used up.
   */
  ghost predicate Paused(s: DeflateState, flush: Flush)
    reads s`nextIn, s.out
  {
    s.out.Full() || (s.out.Idle() && s.nextIn == [] && flush.NoFlush?)
  }

  /**
   No block is sent without moving block_start: as long as it stands where it did before, the output is as it
   was then.
   */
  ghost predicate Quiet(s: DeflateState, before: int, room: nat, bits: seq<bool>)
    reads s`base, s`blockStart, s.out
  {
    && s.base + s.blockStart >= before
    && (s.base + s.blockStart == before ==> s.out.availOut == room && s.out.bits == bits)
  }

  /** All input has been read, and the blocks sent decode to all of it. */
  ghost predicate Drained(s: DeflateState)
    requires s.Shape()
    reads s`nextIn, s`lookahead, s`symNext, s`base, s`blockStart, s`strStart, s`S, s`blocks, s`restart
  {
    && s.nextIn == [] && s.lookahead == 0 && s.symNext == 0 && s.blockStart == s.strStart
    && s.base + s.strStart == |s.S|
    && DecodesTo(s.MaxDist(), s.blocks, s.restart, s.S, |s.S|)
  }

  lemma DrainedIfLossless(s: DeflateState)
    requires s.Shape() && s.SymsOk() && s.Lossless(s.base + s.strStart)
    requires s.nextIn == [] && s.lookahead == 0 && s.symNext == 0 && s.blockStart == s.strStart
    requires s.base + s.strStart == |s.S|
    ensures Drained(s)
  {
  }

  lemma EmptyTallyIsDrained(s: DeflateState)
    requires s.Shape() && s.SymsOk() && s.Lossless(s.base + s.strStart) && s.symNext == 0
    requires s.nextIn == [] && s.lookahead == 0 && s.base + s.strStart == |s.S|
    ensures Drained(s)
  {
    assert s.Tallied() == [];
    assert |s.S[s.restart.at..s.base + s.blockStart]| == |s.S[s.restart.at..|s.S|]|;
    DrainedIfLossless(s);
  }

  /** The final block has been sent, and the blocks decode to the whole input. */
  ghost predicate Ended(s: DeflateState)
    reads s`nextIn, s`lookahead, s`symNext, s`base, s`blockStart, s`strStart, s`S, s`header, s`blocks, s`restart
    reads s`check, s`totalIn, s.out
  {
    s.Shape() && Drained(s) && Closed(s.blocks) && s.Sent() && s.CheckOk()
  }

  /** The end that all compression functions but deflate_stored share. */
  method FlushTail(s: DeflateState, flush: Flush) returns (r: BlockState)
    requires s.Shape() && s.WindowOk() && s.SymsOk() && s.Lossless(s.base + s.strStart) && s.CheckOk()
    requires s.Sent() && s.out.Idle() && Open(s.blocks) && s.nextIn == [] && s.lookahead == 0 && Storable(s)
    modifies s`symNext, s`blocks, s`blockStart, s.out
    ensures s.SymsOk() && s.symNext == 0 && s.Lossless(s.base + s.strStart) && s.Sent() && Drained(s)
    ensures Pours(s.blocks, s.Tallied(), old(s.blocks), old(s.Tallied()))
    ensures match r
      case NeedMore => Open(s.blocks) && s.out.Full()
      case BlockDone => Open(s.blocks) && s.out.Idle()
      case FinishStarted => Ended(s) && s.out.Full()
      case FinishDone => Ended(s) && s.out.Idle() && s.out.availOut > 0
    ensures flush.Finish? <==> r.FinishStarted? || r.FinishDone?
    ensures !flush.Finish? ==> Quiet(s, old(s.base + s.blockStart), old(s.out.availOut), old(s.out.bits))
    ensures s.out.availOut <= old(s.out.availOut) && s.out.Room() == old(s.out.Room())
  {
    hide DeflateState.CheckOk, DeflateState.Sent, DecodesTo, Decode, Unpack, Open, Closed;
    if flush.Finish? {
      FlushBlockOnly(s, true);
      DrainedIfLossless(s);
      return if s.out.availOut == 0 then FinishStarted else FinishDone;
    }
    if s.symNext > 0 {
      FlushBlockOnly(s, false);
      DrainedIfLossless(s);
      if s.out.availOut == 0 { return NeedMore; }
    } else {
      EmptyTallyIsDrained(s);
    }
    return BlockDone;
  }
}

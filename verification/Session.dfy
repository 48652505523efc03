/** Whole runs: deflateInit2, and any sequence of deflate calls. */
module Sessions {
  import opened Basics
  import opened Lz77
  import opened Bits
  import opened Blocks
  import opened Checks
  import opened Memory
  import HashChains
  import opened DeflateStates
  import opened Flushing
  import opened Headers
  import opened Deflating

  /** What deflateInit2_ makes of its arguments, or None for Z_STREAM_ERROR. */
  datatype Setup = Setup(level: nat, wrap: Wrap, windowBits: nat, memLevel: nat)

  function InitParameters(level: int, windowBits: int, memLevel: int): (r: Option<Setup>)
    ensures r.Some? ==> r.value.level <= 9 && 9 <= r.value.windowBits <= 15 && 1 <= r.value.memLevel <= 9
    ensures r.Some? ==> r.value.memLevel == memLevel && r.value.level == (if level == -1 then 6 else level)
    ensures r.Some? && windowBits < 0 ==> r.value.windowBits == -windowBits
    ensures r.Some? && windowBits > 15 ==> r.value.windowBits == windowBits - 16
    ensures r.Some? && 0 <= windowBits <= 15 ==> r.value.windowBits == (if windowBits == 8 then 9 else windowBits)
    ensures r.Some? ==> (r.value.wrap.Raw? <==> windowBits < 0) && (r.value.wrap.Gzip? <==> windowBits > 15)
    ensures r.Some? <==> -1 <= level <= 9 && 1 <= memLevel <= 9 &&
                         (-15 <= windowBits <= -9 || 8 <= windowBits <= 15 || 25 <= windowBits <= 31)
  {
    var level' := if level == -1 then 6 else level;
    if windowBits < -15 then None else
    var wrap := if windowBits < 0 then Raw else if windowBits > 15 then Gzip else Zlib;
    var bits := if windowBits < 0 then -windowBits else if windowBits > 15 then windowBits - 16 else windowBits;
    if memLevel < 1 || memLevel > 9 || bits < 8 || bits > 15 || level' < 0 || level' > 9 || (bits == 8 && !wrap.Zlib?)
    then None
    else Some(Setup(level', wrap, if bits == 8 then 9 else bits, memLevel))
  }

  /** The header a stream set up this way begins with. */
  function HeaderOf(p: Setup, strategy: Strategy, gzhead: Option<GzHeader>): seq<byte>
    requires 8 <= p.windowBits <= 15
  {
    HeaderFor(p.wrap, p.windowBits, p.level, strategy, gzhead)
  }

  /** deflateInit2_, then deflateSetHeader. */
  method DeflateInit2(p: Setup, strategy: Strategy, gzhead: Option<GzHeader>, coder: Coder)
    returns (s: DeflateState)
    requires p.level <= 9 && 9 <= p.windowBits <= 15 && 1 <= p.memLevel <= 9
    requires gzhead.Some? ==> ValidHeader(gzhead.value)
    ensures fresh(s) && fresh(s.window) && fresh(s.head) && fresh(s.prev) && fresh(s.symBuf) && fresh(s.out)
    ensures DriverInv(s) && InHeader(s) && s.S == [] && s.nextIn == [] && s.out.delivered == [] && s.out.availOut == 0
    ensures FullHeader(s) == HeaderOf(p, strategy, gzhead) && s.wrap == p.wrap && s.coder == coder
    ensures forall flush :: !Pointless(s, flush)
    ensures s.wSize == Pow2(p.windowBits) && s.level == p.level && s.tuning == Configuration(p.level)
    ensures s.hashBits == p.memLevel + 7 && s.litBufsize == Pow2(p.memLevel + 6) && s.strategy == strategy
  {
    hide Configuration, ValidHeader, Pow2, GzipHeader, ZlibHeader;
    s := new DeflateState(p.level, p.wrap, gzhead, p.windowBits, p.memLevel, strategy, coder);
  }

  /** The engine does not mind how much room there is. */
  method RoomForEngine(s: DeflateState, room: nat)
    requires s.Shape() && EngineInv(s)
    modifies s.out`availOut
    ensures EngineInv(s) && s.out.availOut == room
  {
    hide Encode, BitsOf, Carries, DecodesTo, Sub32, Open;
    hide DeflateState.ChainsOk, DeflateState.CheckOk, DeflateState.WindowOk, DeflateState.KeyOk;
    s.out.availOut := room;
  }

  method RoomForHeader(s: DeflateState, room: nat)
    requires HeaderInv(s)
    modifies s.out`availOut
    ensures HeaderInv(s) && s.out.availOut == room
  {
    hide Progress;
    s.out.availOut := room;
  }

  method RoomForTrailer(s: DeflateState, room: nat)
    requires s.Shape() && FinishedInv(s)
    modifies s.out`availOut
    ensures FinishedInv(s) && s.out.availOut == room
  {
    hide Encode, BitsOf, DecodesTo, Closed, DeflateState.CheckOk;
    s.out.availOut := room;
  }

  /** The application's part of a call: more input behind what is unread, and a fresh output buffer. */
  method Supply(s: DeflateState, input: seq<byte>, room: nat)
    requires DriverInv(s)
    modifies s`nextIn, s.out`availOut
    ensures DriverInv(s) && s.nextIn == old(s.nextIn) + input && s.out.availOut == room
    ensures old(Complete(s)) ==> Complete(s)
  {
    hide EngineInv, HeaderInv, FinishedInv, FullHeader, DeflateState.Fresh;
    s.nextIn := s.nextIn + input;
    if InHeader(s) {
      RoomForHeader(s, room);
    } else if s.status.BusyState? {
      RoomForEngine(s, room);
    } else {
      RoomForTrailer(s, room);
    }
  }

  /**
   `out` is the header, then blocks that decode to `input` with only the last one marked final, then
   the trailer of `input`.
   */
  ghost predicate StreamOf(coder: Coder, out: seq<byte>, header: seq<byte>, wrap: Wrap, reach: nat, input: seq<byte>) {
    exists blocks: seq<Block> ::
      && AllWellFormed(blocks) && Closed(blocks) && DecodeAll(reach, blocks) == Some(input)
      && BitsOf(out) == BitsOf(header) + Encode(coder, 8 * |header|, blocks) + BitsOf(TrailerFor(wrap, input))
  }

  /** `out` is the beginning of the header and of blocks that decode to a beginning of `input`. */
  ghost predicate BeginningOf(coder: Coder, out: seq<byte>, header: seq<byte>, wrap: Wrap, reach: nat,
                              input: seq<byte>)
  {
    exists blocks: seq<Block>, trailer: seq<byte> ::
      && AllWellFormed(blocks) && DecodeAll(reach, blocks).Some? && DecodeAll(reach, blocks).value <= input
      && (trailer == [] || (trailer == TrailerFor(wrap, input) && DecodeAll(reach, blocks).value == input))
      && BitsOf(out) <= BitsOf(header) + Encode(coder, 8 * |header|, blocks) + BitsOf(trailer)
  }

  /** When deflate has returned Z_STREAM_END, the application holds a whole stream of what was read. */
  lemma CompleteIsStream(s: DeflateState)
    requires DriverInv(s) && Complete(s)
    ensures StreamOf(s.coder, s.out.delivered, FullHeader(s), s.wrap, s.MaxDist(), s.S)
  {
    hide BitsOf, Encode, DecodesTo, Closed, FullHeader, TrailerFor, EngineInv;
    assert s.out.delivered + s.out.Queue() == s.out.delivered;
    RawTrailer(s);
    DecodesAll(s.MaxDist(), s.blocks, s.restart, s.S, |s.S|);
    assert s.S[..|s.S|] == s.S;
    assert BitsOf(s.out.delivered) ==
           BitsOf(s.header) + Encode(s.coder, 8 * |s.header|, s.blocks) + BitsOf(TrailerFor(s.wrap, s.S));
  }

  lemma RawTrailer(s: DeflateState)
    ensures s.wrap.Raw? ==> TrailerFor(s.wrap, s.S) == []
  {
  }

  lemma {:induction false} BitsOfPrefix(a: seq<byte>, b: seq<byte>)
    requires a <= b
    ensures BitsOf(a) <= BitsOf(b)
  {
    hide BitsOf;
    assert b == a + b[|a|..];
    BitsOfAppend(a, b[|a|..]);
  }

  /** At any moment, the application holds the beginning of a stream. */
  lemma InvIsBeginning(s: DeflateState)
    requires DriverInv(s)
    ensures BeginningOf(s.coder, s.out.delivered, FullHeader(s), s.wrap, s.MaxDist(), s.S)
  {
    hide BitsOf, Encode, DecodesTo, Decode, Closed, FullHeader, TrailerFor, Progress, HashChains.Inv;
    BitsOfPrefix(s.out.delivered, s.out.delivered + s.out.Queue());
    EmptyBits();
    var header := FullHeader(s);
    if InHeader(s) {
      ProgressIsPrefix(s);
      BitsOfPrefix(s.out.delivered, header);
      NoBlocks(s.coder, s.MaxDist(), 8 * |header|);
      assert BitsOf(s.out.delivered) <= BitsOf(header) + Encode(s.coder, 8 * |header|, []) + BitsOf([]);
    } else if s.status.BusyState? {
      BusyIsSent(s);
      assert BitsOf(s.out.delivered) <= BitsOf(header) + Encode(s.coder, 8 * |header|, s.blocks) + BitsOf([]);
    } else {
      DecodesAll(s.MaxDist(), s.blocks, s.restart, s.S, |s.S|);
      assert s.S[..|s.S|] == s.S;
      assert BitsOf(s.out.delivered) <= BitsOf(header) + Encode(s.coder, 8 * |header|, s.blocks) + BitsOf(s.trailer);
    }
  }

  lemma NoBlocks(coder: Coder, reach: nat, pos: nat)
    ensures AllWellFormed([]) && DecodeAll(reach, []) == Some([]) && Encode(coder, pos, []) == []
  {
  }

  lemma BusyIsSent(s: DeflateState)
    requires s.Shape() && EngineInv(s)
    ensures s.Sent() && DecodeAll(s.MaxDist(), s.blocks).Some? && DecodeAll(s.MaxDist(), s.blocks).value <= s.S
  {
    hide BitsOf, Encode, Decode, HashChains.Inv, DecodeAll;
    DecodesAll(s.MaxDist(), s.blocks, s.restart, s.S, s.base + s.blockStart);
  }

  /** One call: what the application adds to the input, the room it gives, and the flush it asks for. */
  datatype Call = Call(input: seq<byte>, room: nat, flush: Flush)

  function Inputs(calls: seq<Call>): seq<byte> {
    if calls == [] then [] else Inputs(calls[..|calls| - 1]) + calls[|calls| - 1].input
  }

  /** What came of a call: its return code, the input still unread, and how much of the room it used. */
  datatype Outcome = Outcome(ret: ReturnCode, unread: nat, used: nat)

  /**
   What a return code tells the application.  Z_OK: the room is used up or, unless the stream was to be
   finished, all input has been read.  Z_BUF_ERROR: there was no room, or nothing to do, or input after
   Z_FINISH.  Z_STREAM_ERROR: another flush after Z_FINISH.
   */
  predicate Served(call: Call, o: Outcome, finishing: bool) {
    && o.used <= call.room
    && match o.ret
       case Ok => o.used == call.room || (o.unread == 0 && !call.flush.Finish?)
       case StreamEnd => o.unread == 0 && call.flush.Finish?
       case StreamError => finishing && !call.flush.Finish?
       case BufError => call.room == 0 || (o.unread == 0 && !call.flush.Finish?) || (o.unread > 0 && finishing)
  }

  /** Z_FINISH has been asked for. */
  predicate Finishing(calls: seq<Call>) { exists k :: 0 <= k < |calls| && calls[k].flush.Finish? }

  /** One call of the application. */
  method Serve(s: DeflateState, call: Call) returns (o: Outcome)
    requires DriverInv(s)
    modifies s, s.window, s.head, s.prev, s.symBuf, s.out
    ensures DriverInv(s) && Served(call, o, old(s.status.FinishState?)) && o.unread == |s.nextIn|
    ensures s.status.FinishState? ==> old(s.status.FinishState?) || call.flush.Finish?
    ensures s.S + s.nextIn == old(s.S + s.nextIn) + call.input && old(s.S) <= s.S
    ensures |s.out.delivered| == |old(s.out.delivered)| + o.used
    ensures o.ret.StreamEnd? || old(Complete(s)) ==> Complete(s)
  {
    hide DriverInv, Complete, FlushDone, Remaining, Below;
    Memory.AppendAssoc(s.S, s.nextIn, call.input);
    Supply(s, call.input, call.room);
    var ret := Deflate(s, call.flush);
    o := Outcome(ret, |s.nextIn|, call.room - s.out.availOut);
  }

  /**
   Any sequence of calls on a fresh stream.  Whatever the slicing of input and output and whatever the
   flushes: once a call returns Z_STREAM_END the bytes delivered are a stream of exactly the input read,
   and before that they are the beginning of one.
   */
  method Session(p: Setup, strategy: Strategy, gzhead: Option<GzHeader>, coder: Coder, calls: seq<Call>)
    returns (out: seq<byte>, consumed: seq<byte>, unread: seq<byte>, log: seq<Outcome>)
    requires p.level <= 9 && 9 <= p.windowBits <= 15 && 1 <= p.memLevel <= 9
    requires gzhead.Some? ==> ValidHeader(gzhead.value)
    ensures consumed + unread == Inputs(calls)
    ensures BeginningOf(coder, out, HeaderOf(p, strategy, gzhead), p.wrap, Reach(p.windowBits), consumed)
    ensures |log| == |calls| && forall i :: 0 <= i < |calls| ==> Served(calls[i], log[i], Finishing(calls[..i]))
    ensures (exists i :: 0 <= i < |log| && log[i].ret.StreamEnd?) ==>
              StreamOf(coder, out, HeaderOf(p, strategy, gzhead), p.wrap, Reach(p.windowBits), consumed)
  {
    hide DriverInv, Complete, FullHeader, HeaderOf, Pow2, Served, Finishing, BeginningOf, StreamOf;
    var s := DeflateInit2(p, strategy, gzhead, coder);
    log := [];
    for i := 0 to |calls|
      invariant fresh(s) && fresh(s.window) && fresh(s.head) && fresh(s.prev) && fresh(s.symBuf) && fresh(s.out)
      invariant DriverInv(s) && s.S + s.nextIn == Inputs(calls[..i])
      invariant |log| == i && forall k :: 0 <= k < i ==> Served(calls[k], log[k], Finishing(calls[..k]))
      invariant s.status.FinishState? ==> Finishing(calls[..i])
      invariant (exists k :: 0 <= k < |log| && log[k].ret.StreamEnd?) ==> Complete(s)
    {
      assert calls[..i + 1][..i] == calls[..i];
      StillFinishing(calls, i);
      ghost var finished := s.status.FinishState?;
      var o := Serve(s, calls[i]);
      ServedMore(calls[i], o, finished, Finishing(calls[..i]));
      log := log + [o];
    }
    assert calls[..|calls|] == calls;
    out, unread := s.out.delivered, s.nextIn;
    consumed := Inputs(calls)[..|Inputs(calls)| - |unread|];
    assert consumed == s.S;
    ReachIsMaxDist(s, p.windowBits);
    InvIsBeginning(s);
    if exists i :: 0 <= i < |log| && log[i].ret.StreamEnd? { CompleteIsStream(s); }
  }

  lemma ServedMore(call: Call, o: Outcome, finished: bool, finishing: bool)
    requires Served(call, o, finished) && (finished ==> finishing)
    ensures Served(call, o, finishing)
  {
  }

  lemma StillFinishing(calls: seq<Call>, i: nat)
    requires i < |calls|
    ensures Finishing(calls[..i + 1]) <==> Finishing(calls[..i]) || calls[i].flush.Finish?
  {
    if Finishing(calls[..i]) {
      var k :| 0 <= k < i && calls[..i][k].flush.Finish?;
      assert calls[..i + 1][k].flush.Finish?;
    }
    if calls[i].flush.Finish? {
      assert calls[..i + 1][i].flush.Finish?;
    }
  }

  /** Nothing that is left to do is negative. */
  lemma RemainingIsNatural(s: DeflateState)
    requires DriverInv(s)
    ensures Remaining(s).bytes >= 0
  {
    hide BitsOf, Encode, Decode, HashChains.Inv, FullHeader, DecodeAll, Closed, Progress;
    if InHeader(s) { ProgressIsPrefix(s); }
  }

  /** One call with Z_FINISH and some room: the stream is complete, or there is less left to do. */
  method FinishCall(s: DeflateState, room: nat) returns (ended: bool)
    requires DriverInv(s) && (s.status.FinishState? ==> s.nextIn == []) && room > 0
    modifies s, s.window, s.head, s.prev, s.symBuf, s.out
    ensures DriverInv(s) && s.S + s.nextIn == old(s.S + s.nextIn) && (s.status.FinishState? ==> s.nextIn == [])
    ensures 9 <= s.wBits <= 15
    ensures if ended then Complete(s) && s.nextIn == [] else Below(Remaining(s), old(Remaining(s)))
  {
    hide DriverInv, Complete, FlushDone, FullHeader, Below;
    assert s.nextIn + [] == s.nextIn;
    Supply(s, [], room);
    var ret := Deflate(s, Finish);
    ended := ret.StreamEnd?;
  }

  /**
   Calls with Z_FINISH, each with some room for output, come to an end, and then the application holds a
   whole stream of everything it supplied.
   */
  method FinishStream(s: DeflateState)
    requires DriverInv(s) && (s.status.FinishState? ==> s.nextIn == [])
    modifies s, s.window, s.head, s.prev, s.symBuf, s.out
    ensures DriverInv(s) && Complete(s) && s.S == old(s.S + s.nextIn) && s.nextIn == []
    ensures 9 <= s.wBits <= 15 && StreamOf(s.coder, s.out.delivered, FullHeader(s), s.wrap, s.MaxDist(), s.S)
  {
    hide DriverInv, Complete, StreamOf, FullHeader, Remaining;
    InvImpliesCore(s);
    while true
      invariant DriverInv(s) && s.S + s.nextIn == old(s.S + s.nextIn) && (s.status.FinishState? ==> s.nextIn == [])
      decreases Remaining(s).part, Remaining(s).bytes, Remaining(s).waiting
    {
      var room: int := *;
      RemainingIsNatural(s);
      var ended := FinishCall(s, if room < 1 then 1 else room);
      if ended { break; }
    }
    CompleteIsStream(s);
    assert s.S + [] == s.S;
  }

  /**
   After a flush the blocks decode to everything supplied so far, and they have been delivered but for the bits
   left over, which are none exactly if the blocks end on a byte boundary; so it is after a sync or full flush.
   After a partial flush all bits left over belong to the empty block at the end, so that the blocks in front of
   it have been delivered whole.
   */
  lemma FlushDelivers(s: DeflateState, flush: Flush)
    requires DriverInv(s) && FlushDone(s, flush)
    ensures s.nextIn == [] && AllWellFormed(s.blocks) && DecodeAll(s.MaxDist(), s.blocks) == Some(s.S)
    ensures var sent := BitsOf(s.header) + Encode(s.coder, 8 * |s.header|, s.blocks);
      && BitsOf(s.out.delivered) + s.out.bits == sent
      && (BitsOf(s.out.delivered) == sent <==> s.out.bits == [])
      && |s.out.bits| == |Encode(s.coder, 8 * |s.header|, s.blocks)| % 8
    ensures flush.SyncFlush? || flush.FullFlush? ==> s.out.bits == []
    ensures flush.PartialFlush? ==> DeliveredWhole(s, s.blocks[..|s.blocks| - 1])
  {
    hide BitsOf, Encode, DecodeAll, DecodesTo, EngineInv, DriverInv, DriverCore, DeliveredWhole, DeflateState.Shape;
    s.Sizes();
    DecodesAll(s.MaxDist(), s.blocks, s.restart, s.S, |s.S|);
    assert s.S[..|s.S|] == s.S;
    assert s.out.delivered + s.out.Queue() == s.out.delivered;
    InvImpliesCore(s);
    LeftOver(|s.out.delivered|, |s.out.bits|, |s.header|, |Encode(s.coder, 8 * |s.header|, s.blocks)|);
    if flush.PartialFlush? { PartialDelivers(s); }
  }

  lemma LeftOver(bytes: nat, bits: nat, header: nat, body: nat)
    requires 8 * bytes + bits == 8 * header + body && bits < 8
    ensures bits == body % 8
  {
  }

  /** These blocks decode to all that has been read, and every bit of them has been delivered. */
  ghost predicate DeliveredWhole(s: DeflateState, blocks: seq<Block>)
    requires s.Shape()
    reads s`S, s`header, s.out
  {
    && AllWellFormed(blocks) && DecodeAll(s.MaxDist(), blocks) == Some(s.S)
    && BitsOf(s.header) + Encode(s.coder, 8 * |s.header|, blocks) <= BitsOf(s.out.delivered)
  }

  /** Less than a byte is held back, and the empty block has ten bits. */
  lemma PartialDelivers(s: DeflateState)
    requires s.Shape() && AllWellFormed(s.blocks) && DecodeAll(s.MaxDist(), s.blocks) == Some(s.S)
    requires |s.blocks| > 0 && s.blocks[|s.blocks| - 1] == Align && |s.out.bits| < 8
    requires BitsOf(s.out.delivered) + s.out.bits == BitsOf(s.header) + Encode(s.coder, 8 * |s.header|, s.blocks)
    ensures DeliveredWhole(s, s.blocks[..|s.blocks| - 1])
  {
    hide BitsOf;
    var front := s.blocks[..|s.blocks| - 1];
    var sent := BitsOf(s.header) + Encode(s.coder, 8 * |s.header|, front);
    FrontOfSum(BitsOf(s.out.delivered), s.out.bits, sent, ALIGN_BITS);
  }

  lemma FrontOfSum(a: seq<bool>, b: seq<bool>, c: seq<bool>, d: seq<bool>)
    requires a + b == c + d && |b| <= |d|
    ensures c <= a
  {
    assert c == (c + d)[..|c|] == (a + b)[..|c|] == a[..|c|];
  }

  /**
   Z_BLOCK may hold bits of the last data block back: the literal 97 in the fixed code of section 3.2.6 of
   RFC 1951 is a block of 3 + 8 + 7 bits, of which two stay behind.
   */
  lemma BlockHoldsBack(s: DeflateState)
    requires DriverInv(s) && FlushDone(s, BlockFlush) && s.blocks == [Coded([Literal(97)], false)]
    requires |CodeOf(s.coder, [Literal(97)], false)| == 18
    ensures |s.out.bits| == 2
    ensures |BitsOf(s.out.delivered)| == |BitsOf(s.header) + Encode(s.coder, 8 * |s.header|, s.blocks)| - 2
  {
    hide BitsOf, DriverInv, FlushDone, Encode;
    FlushDelivers(s, BlockFlush);
    OneBlock(s.coder, 8 * |s.header|, Coded([Literal(97)], false));
  }

  lemma OneBlock(coder: Coder, pos: nat, block: Block)
    requires block.Coded? && !block.last
    ensures AllWellFormed([block]) && Encode(coder, pos, [block]) == CodeOf(coder, block.syms, false)
  {
    var all := [block];
    assert all[..0] == [] && Encode(coder, pos, []) == [];
    assert Encode(coder, pos, all) == [] + BlockBits(coder, pos + 0, block);
  }

  /** One more call with the same flush: it returns Z_OK with room to spare and the flush done, or fills its room. */
  method FlushCall(s: DeflateState, flush: Flush, room: nat) returns (o: Outcome)
    requires DriverInv(s) && !s.status.FinishState? && Flushes(flush) && !Pointless(s, flush) && room > 0
    modifies s, s.window, s.head, s.prev, s.symBuf, s.out
    ensures DriverInv(s) && s.S + s.nextIn == old(s.S + s.nextIn) && !s.status.FinishState? && 9 <= s.wBits <= 15
    ensures o.ret.Ok? && o.used <= room && |s.out.delivered| == old(|s.out.delivered|) + o.used
    ensures o.used < room ==> room > MarkerBytes(flush) && FlushDone(s, flush)
    ensures o.used == room ==> !Pointless(s, flush)
    ensures o.used == room > MarkerBytes(flush) ==> Below(Remaining(s), old(Remaining(s)))
  {
    hide DriverInv, Complete, FlushDone, FullHeader, Below;
    assert s.nextIn + [] == s.nextIn;
    Supply(s, [], room);
    var ret := Deflate(s, flush);
    o := Outcome(ret, |s.nextIn|, room - s.out.availOut);
  }

  /**
   Calls with one flush and no new input, each with room for more than the whole bytes of the marker, come to an
   end with the flush complete: 6 bytes do for a sync or full flush, 2 for a partial flush, 1 for Z_BLOCK.
   */
  method FlushStream(s: DeflateState, flush: Flush)
    requires DriverInv(s) && !s.status.FinishState? && Flushes(flush) && !Pointless(s, flush)
    modifies s, s.window, s.head, s.prev, s.symBuf, s.out
    ensures DriverInv(s) && FlushDone(s, flush) && s.S == old(s.S + s.nextIn)
  {
    hide DriverInv, FullHeader, Remaining, FlushDone;
    InvImpliesCore(s);
    while true
      invariant DriverInv(s) && s.S + s.nextIn == old(s.S + s.nextIn) && !s.status.FinishState? && !Pointless(s, flush)
      decreases Remaining(s).part, Remaining(s).bytes, Remaining(s).waiting
    {
      var room: int := *;
      RemainingIsNatural(s);
      if room <= MarkerBytes(flush) { room := MarkerBytes(flush) + 1; }
      var o := FlushCall(s, flush, room);
      if o.used < room { break; }
    }
    FlushDelivers(s, flush);
    assert s.S + [] == s.S;
  }

  /** With less room than that in every call the flush is never complete: each call returns Z_OK and fills its room. */
  method StarvedFlush(s: DeflateState, flush: Flush, rooms: seq<nat>) returns (log: seq<Outcome>)
    requires DriverInv(s) && !s.status.FinishState? && Flushes(flush) && !Pointless(s, flush)
    requires forall i :: 0 <= i < |rooms| ==> 1 <= rooms[i] <= MarkerBytes(flush)
    modifies s, s.window, s.head, s.prev, s.symBuf, s.out
    ensures DriverInv(s) && s.S + s.nextIn == old(s.S + s.nextIn)
    ensures |log| == |rooms| && forall i :: 0 <= i < |rooms| ==> log[i].ret.Ok? && log[i].used == rooms[i]
  {
    hide DriverInv, FullHeader, Remaining, FlushDone, Pointless;
    log := [];
    for i := 0 to |rooms|
      invariant DriverInv(s) && !s.status.FinishState? && !Pointless(s, flush)
      invariant s.S + s.nextIn == old(s.S + s.nextIn)
      invariant |log| == i && forall k :: 0 <= k < i ==> log[k].ret.Ok? && log[k].used == rooms[k]
    {
      var o := FlushCall(s, flush, rooms[i]);
      log := log + [o];
    }
  }

  /** The order of flushes: Z_NO_FLUSH, Z_BLOCK, Z_PARTIAL_FLUSH, Z_SYNC_FLUSH, Z_FULL_FLUSH, and Z_FINISH above all. */
  predicate Exceeds(g: Flush, f: Flush) {
    match f
    case NoFlush => !g.NoFlush?
    case BlockFlush => g.PartialFlush? || g.SyncFlush? || g.FullFlush? || g.Finish?
    case PartialFlush => g.SyncFlush? || g.FullFlush? || g.Finish?
    case SyncFlush => g.FullFlush? || g.Finish?
    case FullFlush => g.Finish?
    case Finish => false
  }

  lemma ExceedsIsRank(g: Flush, f: Flush)
    requires !f.Finish? && !g.Finish?
    ensures Exceeds(g, f) <==> Rank(FlushCode(g)) > Rank(FlushCode(f))
  {
  }

  /**
   Two calls, the second without new input.  If the first left room, there is nothing for the second to do, and it
   returns Z_BUF_ERROR and puts nothing out, if and only if its flush does not exceed the first one's.
   */
  method DuplicateFlush(s: DeflateState, first: Call, g: Flush, room: nat) returns (o: Outcome, o': Outcome)
    requires DriverInv(s)
    modifies s, s.window, s.head, s.prev, s.symBuf, s.out
    ensures DriverInv(s)
    ensures o.ret.Ok? && o.used < first.room && !g.Finish? && room > 0 ==>
      && (o'.ret.BufError? <==> !Exceeds(g, first.flush))
      && (o'.ret.BufError? ==> o'.used == 0)
      && (o'.ret.Ok? || o'.ret.BufError?)
  {
    hide DriverInv, Complete, FlushDone, FullHeader, Below, Remaining, Exceeds;
    Supply(s, first.input, first.room);
    var ret := Deflate(s, first.flush);
    o := Outcome(ret, |s.nextIn|, first.room - s.out.availOut);
    if ret.Ok? && s.out.availOut > 0 && !g.Finish? { ExceedsIsRank(g, first.flush); }
    assert s.nextIn + [] == s.nextIn;
    Supply(s, [], room);
    ret := Deflate(s, g);
    o' := Outcome(ret, |s.nextIn|, room - s.out.availOut);
  }

  /** At every moment the blocks after the last full flush decode without the ones before it. */
  lemma RestartsAfterFullFlush(s: DeflateState)
    requires DriverInv(s) && !InHeader(s)
    ensures s.restart.blocks <= |s.blocks| && s.restart.at <= |s.S|
    ensures DecodeAll(s.MaxDist(), s.blocks[..s.restart.blocks]) == Some(s.S[..s.restart.at])
    ensures var tail := DecodeAll(s.MaxDist(), s.blocks[s.restart.blocks..]);
      tail.Some? && tail.value <= s.S[s.restart.at..] && (Complete(s) ==> tail.value == s.S[s.restart.at..])
  {
    hide BitsOf, Encode, Decode, HashChains.Inv, DecodeAll, FullHeader, Closed;
  }

  /** The farthest distance a match may have. */
  function Reach(windowBits: nat): nat
    requires 9 <= windowBits <= 15
  {
    Pow2Bounds(windowBits);
    Pow2(windowBits) - MIN_LOOKAHEAD
  }

  lemma ReachIsMaxDist(s: DeflateState, windowBits: nat)
    requires 9 <= windowBits <= 15 && s.wSize == Pow2(windowBits)
    ensures s.MaxDist() == Reach(windowBits)
  {
  }
}

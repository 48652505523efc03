/** compress2: a whole buffer through deflate, in pieces of at most 2^32 - 1 bytes. */
module Compressing {
  import opened Basics
  import opened Blocks
  import opened Checks
  import Memory
  import opened DeflateStates
  import opened Headers
  import opened Deflating
  import opened Sessions

  const MAX_UINT: nat := 0xffff_ffff

  /** Tops up the output space and the input, each when it has run out. */
  method TopUp(s: DeflateState, left: nat, rest: seq<byte>) returns (left': nat, rest': seq<byte>)
    requires DriverInv(s)
    modifies s`nextIn, s.out`availOut
    ensures DriverInv(s)
    ensures s.S + s.nextIn + rest' == old(s.S + s.nextIn) + rest
    ensures |s.nextIn| + |rest'| == old(|s.nextIn|) + |rest| && s.out.availOut + left' == old(s.out.availOut) + left
    ensures rest' != [] ==> s.nextIn != []
    ensures rest == [] ==> rest' == []
    ensures s.nextIn == [] ==> old(s.nextIn) == []
    ensures s.out.availOut == 0 ==> left' == 0 && left == 0
    ensures s.out.delivered == old(s.out.delivered) && s.status == old(s.status)
    ensures old(s.nextIn) == [] && rest == [] ==> s.nextIn == []
    ensures old(|s.nextIn|) <= 0xffff_ffff && old(s.out.availOut) <= 0xffff_ffff ==>
              |s.nextIn| <= 0xffff_ffff && s.out.availOut <= 0xffff_ffff
  {
    hide DriverInv;
    var give, out: nat := [], s.out.availOut;
    left', rest' := left, rest;
    if out == 0 {
      out := Min(left, MAX_UINT);
      left' := left - out;
    }
    if s.nextIn == [] {
      var len := Min(|rest|, MAX_UINT);
      give := rest[..len];
      Memory.TakeFromRest(s.S + s.nextIn, rest, len);
      rest' := rest[len..];
    }
    Memory.AppendAssoc(s.S, s.nextIn, give);
    Supply(s, give, out);
  }

  /** The zlib header of compress2 at this level: a 32K window and the default strategy. */
  function HeaderAt(level: int): seq<byte>
    requires -1 <= level <= 9
  {
    ZlibHeader(15, if level == -1 then 6 else level, DefaultStrategy)
  }

  /** compress2; `dest` is the first destLen bytes of the buffer afterwards, `room` its size before. */
  method Compress2(room: nat, source: seq<byte>, level: int, coder: Coder)
    returns (ret: ReturnCode, dest: seq<byte>)
    ensures |dest| <= room
    ensures ret.StreamError? <==> !(-1 <= level <= 9)
    ensures ret.Ok? || ret.StreamError? || ret.BufError?
    ensures ret.BufError? ==> |dest| == room && exists read ::
      read <= source && BeginningOf(coder, dest, HeaderAt(level), Zlib, Reach(15), read)
    ensures ret.Ok? ==> StreamOf(coder, dest, HeaderAt(level), Zlib, Reach(15), source)
  {
    hide DriverInv, Complete, FullHeader, ZlibHeader, Pow2, StreamOf, BeginningOf;
    var p := InitParameters(level, 15, 8);
    if p.None? { return StreamError, []; }
    var s := DeflateInit2(p.value, DefaultStrategy, None, coder);
    var left: nat, rest := room, source;
    while true
      invariant fresh(s) && fresh(s.window) && fresh(s.head) && fresh(s.prev) && fresh(s.symBuf) && fresh(s.out)
      invariant DriverInv(s) && s.S + s.nextIn + rest == source
      invariant s.out.Room() + left == room && |s.nextIn| <= 0xffff_ffff && s.out.availOut <= 0xffff_ffff
      invariant s.status.FinishState? ==> rest == [] && s.nextIn == []
      decreases |s.nextIn| + |rest| + s.out.availOut + left
    {
      left, rest := TopUp(s, left, rest);
      ret := Deflate(s, if rest != [] then NoFlush else Finish);
      if !ret.Ok? { break; }
    }
    dest := s.out.delivered;
    ReachIsMaxDist(s, 15);
    InvIsBeginning(s);
    assert s.S <= source && BeginningOf(coder, dest, HeaderAt(level), Zlib, Reach(15), s.S);
    if ret.StreamEnd? {
      CompleteIsStream(s);
      assert s.S == source;
      ret := Ok;
    }
  }
}

/** read_buf and fill_window: the sliding window across refills. */
module Window {
  import opened Basics
  import opened Lz77
  import opened RollingHash
  import opened HashChains
  import opened Checks
  import opened Memory
  import opened DeflateStates

  /** The live upper-half bytes move down. */
  method MoveBytesDown(s: DeflateState, live: nat)
    requires s.Shape() && s.Holds(live) && s.wSize <= live
    requires s.Initialised(live)
    modifies s`base, s`written, s.window
    ensures s.base == old(s.base) + s.wSize && s.Holds(live - s.wSize) && old(s.written) <= s.written
  {
    hide Pow2;
    var w := s.wSize;
    ghost var bytes := s.window[..live];
    s.written := CopyDown(s.window, w, live - w, s.written);
    assert s.window[..live - w] == bytes[w..];
    DropDrop(s.S, s.base, w);
    s.base := s.base + w;
  }

  /** The slide of fill_window: the live upper-half bytes move down, and every position with them. */
  method Slide(s: DeflateState)
    requires s.Shape() && s.WindowOk() && s.InsertOk() && s.ChainsOk(s.strStart - s.insert)
    requires s.strStart >= s.wSize + s.MaxDist()
    modifies s`base, s`strStart, s`matchStart, s`blockStart, s`insert, s`written, s.window, s.head, s.prev
    ensures s.WindowOk() && s.ChainsOk(s.strStart - s.insert) && old(s.written) <= s.written
    ensures s.base == old(s.base) + s.wSize && s.strStart == old(s.strStart) - s.wSize
    ensures s.blockStart == old(s.blockStart) - s.wSize && s.insert == old(s.insert)
    ensures s.matchStart == Sub32(old(s.matchStart), s.wSize)
  {
    hide HashAt, Inv, Sub32, Pow2, DeflateState.Holds;
    var w := s.wSize;
    MoveBytesDown(s, s.strStart + s.lookahead);
    s.matchStart := Sub32(s.matchStart, w);
    s.strStart := s.strStart - w;
    s.blockStart := s.blockStart - w;
    s.insert := Min(s.insert, s.strStart);
    s.SlideHash();
    SlideKeeps(s.hashBits, w, s.S, old(s.base), s.inserted, old(s.strStart - s.insert),
               old(s.head[..]), old(s.prev[..]), s.head[..], s.prev[..]);
  }

  /** read_buf: takes len bytes of input and updates the check value; the caller puts them where it wants. */
  method ReadBuf(s: DeflateState, len: nat) returns (chunk: seq<byte>)
    requires s.CheckOk() && len <= |s.nextIn|
    modifies s`nextIn, s`totalIn, s`check, s`S
    ensures s.CheckOk() && chunk == old(s.nextIn)[..len] && s.nextIn == old(s.nextIn)[len..]
    ensures s.S == old(s.S) + chunk
  {
    hide Checks.Update;
    chunk := s.nextIn[..len];
    UpdateAppend(s.wrap, Initial(s.wrap), s.S, chunk);
    s.check := Checks.Update(s.wrap, s.check, chunk);
    s.nextIn := s.nextIn[len..];
    s.totalIn := s.totalIn + len;
    s.S := s.S + chunk;
  }

  /** read_buf into the free end of the window. */
  method ReadIntoWindow(s: DeflateState, more: nat, ghost top: nat)
    requires s.Shape() && s.WindowOk() && s.ChainsOk(top) && s.CheckOk()
    requires more == 2 * s.wSize - s.lookahead - s.strStart
    modifies s`nextIn, s`totalIn, s`check, s`S, s`lookahead, s`written, s.window
    ensures s.WindowOk() && s.ChainsOk(top) && s.CheckOk()
    ensures old(s.written) <= s.written && s.strStart + s.lookahead <= 2 * s.wSize
    ensures s.lookahead >= old(s.lookahead) && s.lookahead + |s.nextIn| == old(s.lookahead + |s.nextIn|)
    ensures old(s.S) <= s.S && s.S + s.nextIn == old(s.S + s.nextIn)
    ensures |s.nextIn| == (if |old(s.nextIn)| > more then |old(s.nextIn)| - more else 0)
  {
    hide HashAt, Inv, Pow2, DeflateState.Shape, DeflateState.CheckOk;
    s.Sizes();
    var len := Min(|s.nextIn|, more);
    var at := s.strStart + s.lookahead;
    GrowKeeps(s.hashBits, s.wSize, s.S, s.S + s.nextIn[..len], s.base, s.inserted, top, s.head[..], s.prev[..]);
    DropAppend(s.S, s.nextIn[..len], s.base);
    TakeFromRest(s.S, s.nextIn, len);
    var chunk := ReadBuf(s, len);
    s.written := CopyIn(s.window, at, chunk, s.written);
    s.lookahead := s.lookahead + len;
  }

  /** The strings left over, oldest first, as long as they are whole. */
  method InsertRest(s: DeflateState, ghost live: nat)
    requires s.Shape() && s.Holds(live) && live == s.strStart + s.lookahead
    requires s.insert <= s.strStart && s.insert <= 2 && s.lookahead + s.insert >= MIN_MATCH
    requires s.ChainsOk(s.strStart - s.insert) && PrimedAt(s.hashBits, s.insH, s.S, s.base + s.strStart - s.insert)
    modifies s`insert, s`insH, s`inserted, s.head, s.prev
    ensures s.insert <= old(s.insert) && (s.insert > 0 ==> s.lookahead + s.insert < MIN_MATCH)
    ensures s.lookahead + s.insert >= 2
    ensures s.ChainsOk(s.strStart - s.insert) && PrimedAt(s.hashBits, s.insH, s.S, s.base + s.strStart - s.insert)
    ensures forall a :: a in s.inserted <==>
      a in old(s.inserted) || s.base + s.strStart - old(s.insert) <= a < s.base + s.strStart - s.insert
  {
    hide HashAt, PrimedAt, UpdateHash, Inv, DeflateState.ChainsOk;
    var str := s.strStart - s.insert;
    while s.insert > 0
      invariant s.insert <= old(s.insert) && str == s.strStart - s.insert
      invariant s.ChainsOk(str) && s.lookahead + s.insert >= 2
      invariant PrimedAt(s.hashBits, s.insH, s.S, s.base + str)
      invariant s.insert > 0 ==> s.lookahead + s.insert >= MIN_MATCH
      invariant forall a :: a in s.inserted <==>
        a in old(s.inserted) || s.base + s.strStart - old(s.insert) <= a < s.base + s.strStart - s.insert
      decreases s.insert
    {
      var _ := s.InsertString(str, str, live);
      str := str + 1;
      s.insert := s.insert - 1;
      if s.lookahead + s.insert < MIN_MATCH { break; }
    }
  }

  /** The part of fill_window that restarts the running key and inserts what could not be inserted before. */
  method InsertLeftovers(s: DeflateState)
    requires s.Shape() && s.WindowOk() && s.ChainsOk(s.strStart - s.insert)
    requires s.insert <= s.strStart && s.insert <= 2
    modifies s`insert, s`insH, s`inserted, s.head, s.prev
    ensures s.InsertOk() && s.KeyOk() && s.ChainsOk(s.strStart - s.insert)
    ensures s.insert <= old(s.insert) && forall a :: a in s.inserted <==>
      a in old(s.inserted) || s.base + s.strStart - old(s.insert) <= a < s.base + s.strStart - s.insert
  {
    hide HashAt, PrimedAt, UpdateHash, Inv, DeflateState.ChainsOk;
    if s.lookahead + s.insert >= MIN_MATCH {
      var str := s.strStart - s.insert;
      ghost var live := s.window[..s.strStart + s.lookahead];
      assert s.window[str] == live[str] && s.window[str + 1] == live[str + 1];
      s.insH := UpdateHash(s.hashBits, Fetch(s.window, str, s.written) as bv32, Fetch(s.window, str + 1, s.written));
      FirstTwoBytesPrime(s.hashBits, s.S, s.base + str);
      InsertRest(s, s.strStart + s.lookahead);
    }
  }

  /** Zeroes n bytes beyond the live ones. */
  method ZeroBeyond(s: DeflateState, at: nat, n: nat)
    requires s.Shape() && s.WindowOk() && s.strStart + s.lookahead <= at && at + n <= 2 * s.wSize
    modifies s`written, s.window
    ensures s.WindowOk() && s.written == old(s.written) + Span(at, at + n)
    ensures forall i :: at <= i < at + n ==> s.window[i] == 0
  {
    ghost var live := s.window[..at];
    s.written := Zero(s.window, at, n, s.written);
    assert s.window[..at] == live;
    assert s.window[..s.strStart + s.lookahead] == live[..s.strStart + s.lookahead];
  }

  /** The end of fill_window: zeroes bytes a match may scan that were never written. */
  method ZeroTail(s: DeflateState)
    requires s.Shape() && s.WindowOk() && s.Initialised(s.highWater)
    modifies s`highWater, s`written, s.window
    ensures s.WindowOk() && s.HighWaterOk() && old(s.written) <= s.written
    ensures forall i :: i in s.written && i !in old(s.written) ==>
              i < 2 * s.wSize && s.window[i] == 0 && s.strStart + s.lookahead <= i < s.strStart + s.lookahead + 258
  {
    hide DeflateState.Shape, DeflateState.Holds;
    s.Sizes();
    var size := 2 * s.wSize;
    if s.highWater < size {
      var curr := s.strStart + s.lookahead;
      if s.highWater < curr {
        var init := size - curr;
        if init > WIN_INIT { init := WIN_INIT; }
        ZeroBeyond(s, curr, init);
        s.highWater := curr + init;
      } else if s.highWater < curr + WIN_INIT {
        var init := curr + WIN_INIT - s.highWater;
        if init > size - s.highWater { init := size - s.highWater; }
        ZeroBeyond(s, s.highWater, init);
        s.highWater := s.highWater + init;
      }
    }
  }

  /** Makes room in the upper half if strstart has come too close to the end. */
  method MaybeSlide(s: DeflateState)
    requires s.Shape() && s.WindowOk() && s.InsertOk() && s.ChainsOk(s.strStart - s.insert)
    modifies s`base, s`strStart, s`matchStart, s`blockStart, s`insert, s`written, s.window, s.head, s.prev
    ensures s.WindowOk() && s.InsertOk() && s.ChainsOk(s.strStart - s.insert) && old(s.written) <= s.written
    ensures old(s.KeyOk()) ==> s.KeyOk()
    ensures s.strStart < s.wSize + s.MaxDist()
    ensures s.base + s.strStart == old(s.base + s.strStart)
    ensures s.base + s.blockStart == old(s.base + s.blockStart)
    ensures s.base >= old(s.base) && s.matchStart == Sub32(old(s.matchStart), s.base - old(s.base))
    ensures s.base > old(s.base) ==> s.strStart >= s.MaxDist()
    ensures s.base > old(s.base) ==> old(s.strStart) >= s.wSize + s.MaxDist()
    ensures s.insert == old(s.insert)
  {
    hide PrimedAt, Inv, Sub32, DeflateState.ChainsOk;
    Sub32Zero(s.matchStart);
    if s.strStart >= s.wSize + s.MaxDist() {
      Slide(s);
    }
  }

  /** Reads what fits, then brings the hash tables up to date. */
  method ReadMore(s: DeflateState)
    requires s.Shape() && s.WindowOk() && s.InsertOk() && s.ChainsOk(s.strStart - s.insert) && s.CheckOk()
    requires s.lookahead < MIN_LOOKAHEAD && s.strStart < s.wSize + s.MaxDist() && s.nextIn != []
    modifies s`insert, s`insH, s`inserted, s`nextIn, s`totalIn, s`check, s`S, s`lookahead, s`written
    modifies s.window, s.head, s.prev
    ensures s.WindowOk() && s.InsertOk() && s.KeyOk() && s.ChainsOk(s.strStart - s.insert) && s.CheckOk()
    ensures old(s.written) <= s.written
    ensures old(s.S) <= s.S && s.S + s.nextIn == old(s.S + s.nextIn) && |s.nextIn| < |old(s.nextIn)|
    ensures s.lookahead >= old(s.lookahead) && s.lookahead + |s.nextIn| == old(s.lookahead + |s.nextIn|)
    ensures s.insert <= old(s.insert) && forall a :: a in s.inserted <==>
      a in old(s.inserted) || old(s.base + s.strStart - s.insert) <= a < s.base + s.strStart - s.insert
  {
    hide HashAt, PrimedAt, Checks.Update, Inv, DeflateState.ChainsOk, DeflateState.CheckOk, DeflateState.KeyOk;
    var more := 2 * s.wSize - s.lookahead - s.strStart;
    assert more >= 2;
    ReadIntoWindow(s, more, s.strStart - s.insert);
    InsertLeftovers(s);
  }

  /** The loop of fill_window: slides if the window is nearly full, and reads while there is input. */
  method Refill(s: DeflateState)
    requires s.Shape() && s.WindowOk() && s.InsertOk() && s.ChainsOk(s.strStart - s.insert) && s.CheckOk()
    requires s.lookahead < MIN_LOOKAHEAD
    modifies s`base, s`strStart, s`matchStart, s`blockStart, s`insert, s`insH, s`inserted
    modifies s`nextIn, s`totalIn, s`check, s`S, s`lookahead, s`written, s.window, s.head, s.prev
    ensures s.WindowOk() && s.InsertOk() && s.ChainsOk(s.strStart - s.insert) && s.CheckOk()
    ensures old(s.written) <= s.written
    ensures old(s.KeyOk()) ==> s.KeyOk()
    ensures old(s.S) <= s.S && s.S + s.nextIn == old(s.S + s.nextIn)
    ensures s.base + s.strStart == old(s.base + s.strStart)
    ensures s.base + s.blockStart == old(s.base + s.blockStart)
    ensures s.base >= old(s.base) && s.matchStart == Sub32(old(s.matchStart), s.base - old(s.base))
    ensures s.base > old(s.base) ==> s.strStart >= s.MaxDist()
    ensures s.lookahead >= old(s.lookahead) && s.lookahead + |s.nextIn| == old(s.lookahead + |s.nextIn|)
    ensures s.insert <= old(s.insert) && forall a :: a in s.inserted <==>
      a in old(s.inserted) || old(s.base + s.strStart - s.insert) <= a < s.base + s.strStart - s.insert
    ensures s.lookahead >= MIN_LOOKAHEAD || s.nextIn == []
    ensures s.strStart <= 2 * s.wSize - MIN_LOOKAHEAD
  {
    hide HashAt, PrimedAt, Checks.Update, Inv, Sub32;
    hide DeflateState.ChainsOk, DeflateState.CheckOk, DeflateState.WindowOk, DeflateState.KeyOk, DeflateState.Shape;
    s.Sizes();
    MaybeSlide(s);
    while s.nextIn != []
      invariant s.WindowOk() && s.InsertOk() && s.ChainsOk(s.strStart - s.insert) && s.CheckOk()
      invariant old(s.written) <= s.written
      invariant old(s.KeyOk()) ==> s.KeyOk()
      invariant old(s.S) <= s.S && s.S + s.nextIn == old(s.S + s.nextIn)
      invariant s.base + s.strStart == old(s.base + s.strStart)
      invariant s.base + s.blockStart == old(s.base + s.blockStart)
      invariant s.base >= old(s.base) && s.matchStart == Sub32(old(s.matchStart), s.base - old(s.base))
      invariant s.base > old(s.base) ==> s.strStart >= s.MaxDist()
      invariant s.lookahead + |s.nextIn| == old(s.lookahead + |s.nextIn|)
      invariant s.insert <= old(s.insert) && forall a :: a in s.inserted <==>
        a in old(s.inserted) || old(s.base + s.strStart - s.insert) <= a < s.base + s.strStart - s.insert
      invariant s.strStart < s.wSize + s.MaxDist()
      invariant old(s.lookahead) <= s.lookahead < MIN_LOOKAHEAD
      decreases |s.nextIn|
    {
      ReadMore(s);
      if s.lookahead >= MIN_LOOKAHEAD || s.nextIn == [] { return; }
      Sub32Zero(s.matchStart);
      MaybeSlide(s);
    }
  }

  /** fill_window. */
  method FillWindow(s: DeflateState)
    requires s.Shape() && s.WindowOk() && s.InsertOk() && s.ChainsOk(s.strStart - s.insert) && s.CheckOk()
    requires s.lookahead < MIN_LOOKAHEAD && s.Initialised(s.highWater)
    modifies s`base, s`strStart, s`matchStart, s`blockStart, s`insert, s`insH, s`inserted
    modifies s`nextIn, s`totalIn, s`check, s`S, s`lookahead, s`highWater, s`written
    modifies s.window, s.head, s.prev
    ensures s.WindowOk() && s.InsertOk() && s.ChainsOk(s.strStart - s.insert) && s.CheckOk() && s.HighWaterOk()
    ensures old(s.KeyOk()) ==> s.KeyOk()
    ensures old(s.S) <= s.S && s.S + s.nextIn == old(s.S + s.nextIn)
    ensures s.base + s.strStart == old(s.base + s.strStart)
    ensures s.base + s.blockStart == old(s.base + s.blockStart)
    ensures s.base >= old(s.base) && s.matchStart == Sub32(old(s.matchStart), s.base - old(s.base))
    ensures s.base > old(s.base) ==> s.strStart >= s.MaxDist()
    ensures s.lookahead >= old(s.lookahead) && s.lookahead + |s.nextIn| == old(s.lookahead + |s.nextIn|)
    ensures s.insert <= old(s.insert) && forall a :: a in s.inserted <==>
      a in old(s.inserted) || old(s.base + s.strStart - s.insert) <= a < s.base + s.strStart - s.insert
    ensures s.lookahead >= MIN_LOOKAHEAD || s.nextIn == []
    ensures s.strStart <= 2 * s.wSize - MIN_LOOKAHEAD
  {
    hide HashAt, PrimedAt, Checks.Update, Inv, Sub32;
    hide DeflateState.ChainsOk, DeflateState.CheckOk;
    Refill(s);
    ZeroTail(s);
  }
}

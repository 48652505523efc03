/** deflate_stored: copying without compression. */
module StoredBlocks {
  import opened Basics
  import opened Bits
  import opened Blocks
  import opened OutputSide
  import opened Memory
  import opened DeflateStates
  import opened Window
  import opened Flushing

  /** Blocks that decode to exactly the first n bytes of the stream. */
  ghost predicate StoredUpTo(s: DeflateState, n: int)
    requires s.Shape()
    reads s`S, s`blocks, s`restart
  {
    DecodesTo(s.MaxDist(), s.blocks, s.restart, s.S, n)
  }

  /** The window is `used` bytes behind the input that has been read. */
  ghost predicate Lagging(s: DeflateState, used: nat)
    requires s.Shape()
    reads s`S, s`base, s`strStart, s`written, s.window
  {
    && s.Initialised(s.strStart)
    && s.base + s.strStart + used == |s.S|
    && s.window[..s.strStart] == s.S[s.base..s.base + s.strStart]
  }

  /** The window is up to date, and everything before block_start has been sent. */
  ghost predicate Settled(s: DeflateState)
    reads s`base, s`strStart, s`blockStart, s`insert, s`totalIn, s`check, s`S, s`lookahead, s`highWater, s`written
    reads s`symNext, s`header, s`blocks, s`restart, s.window, s.out
  {
    && s.Shape() && s.lookahead == 0 && s.symNext == 0
    // every string of the window up to w_size is left to insert
    && s.insert == Min(s.strStart, s.wSize)
    && Lagging(s, 0) && 0 <= s.blockStart <= s.strStart && StoredUpTo(s, s.base + s.blockStart)
    && s.Initialised(s.highWater) && s.CheckOk() && s.Sent()
  }

  /** What deflate_stored keeps from call to call. */
  ghost predicate StoredInv(s: DeflateState)
    reads s`base, s`strStart, s`blockStart, s`insert, s`totalIn, s`check, s`S, s`lookahead, s`highWater, s`written
    reads s`symNext, s`header, s`blocks, s`restart, s.window, s.out
  {
    Settled(s) && Open(s.blocks)
  }

  /** The header of a stored block of length len goes to the application, patched into a dummy block. */
  method SendHeader(out: Output, len: nat, last: bool)
    requires out.Idle() && len <= MAX_STORED && HeaderBytes(out) + len <= out.availOut
    modifies out
    ensures out.Valid() && out.pending == 0 && out.bits == []
    ensures len <= out.availOut == old(out.availOut - HeaderBytes(out))
    ensures out.Room() == old(out.Room())
    ensures out.Stream() == old(out.Stream()) + StoredFront(|old(out.Stream())|, len, last)
  {
    hide BitsOf, Padding, StoredBits, Short;
    out.StoredBlock([], last);
    out.PatchLengths(len, last, old(out.Stream()));
    assert |out.Stream()| == 8 * (|out.delivered| + out.pending);
    out.FlushPending();
  }

  lemma Regroup(was: seq<bool>, f: seq<bool>, t: seq<bool>, c: seq<bool>)
    ensures was + f + t + c == was + (f + (t + c))
  {
  }

  /** The header and the two pieces of data are together the bits of one stored block. */
  lemma PiecesAreBlock(was: seq<bool>, tail: seq<byte>, chunk: seq<byte>, last: bool)
    requires |tail| + |chunk| <= MAX_STORED
    ensures was + StoredFront(|was|, |tail| + |chunk|, last) + BitsOf(tail) + BitsOf(chunk) ==
            was + StoredBits(|was|, tail + chunk, last)
  {
    hide BitsOf, StoredFront, StoredBits;
    BitsOfAppend(tail, chunk);
    FrontAndData(|was|, tail + chunk, last);
    Regroup(was, StoredFront(|was|, |tail| + |chunk|, last), BitsOf(tail), BitsOf(chunk));
  }

  /** One stored block written straight to the application: from the window first, then from the input. */
  method SendDirect(s: DeflateState, len: nat, left: nat, last: bool) returns (chunk: seq<byte>)
    requires s.Shape() && s.out.Idle() && s.Sent() && Open(s.blocks) && s.CheckOk()
    requires len <= MAX_STORED && HeaderBytes(s.out) + len <= s.out.availOut
    requires 0 <= s.blockStart && left <= len && s.blockStart + left <= s.strStart <= 2 * s.wSize
    requires len - left <= |s.nextIn|
    modifies s`nextIn, s`totalIn, s`check, s`S, s`blockStart, s`blocks, s.out
    ensures chunk == old(s.nextIn)[..len - left] && s.nextIn == old(s.nextIn)[len - left..]
    ensures s.S == old(s.S) + chunk && s.CheckOk() && s.blockStart == old(s.blockStart) + left
    ensures s.out.Idle() && s.Sent() && s.out.bits == [] && s.out.Room() == old(s.out.Room())
    ensures s.out.availOut == old(s.out.availOut - HeaderBytes(s.out)) - len
    ensures s.blocks == old(s.blocks) +
                        [Block.Stored(s.window[old(s.blockStart)..old(s.blockStart) + left] + chunk, last)]
  {
    hide BitsOf, Padding, Encode, StoredBits, StoredFront, DeflateState.CheckOk, DeflateState.Shape;
    s.Sizes();
    SendHeader(s.out, len, last);
    var tail := s.window[s.blockStart..s.blockStart + left];
    s.out.Deliver(tail);
    s.blockStart := s.blockStart + left;
    chunk := ReadBuf(s, len - left);
    s.out.Deliver(chunk);
    ghost var block := Block.Stored(tail + chunk, last);
    PiecesAreBlock(old(s.out.Stream()), tail, chunk, last);
    StreamSnoc(s.coder, s.header, s.blocks, block, old(s.out.Stream()));
    s.blocks := s.blocks + [block];
  }

  /** Appending a stored block of the next bytes carries the decoder that far. */
  lemma StoredStep(reach: nat, blocks: seq<Block>, r: Restart, s: seq<byte>, n: nat, data: seq<byte>, last: bool)
    requires DecodesTo(reach, blocks, r, s, n) && |data| <= MAX_STORED
    requires n + |data| <= |s| && s[n..n + |data|] == data
    ensures DecodesTo(reach, blocks + [Block.Stored(data, last)], r, s, n + |data|)
  {
    assert s[r.at..n] + data == s[r.at..n + |data|];
    DecodesSnoc(reach, blocks, r, s, n, Block.Stored(data, last), n + |data|);
  }

  /** The state between two direct blocks, after `used` input bytes have gone straight out. */
  ghost predicate Copying(s: DeflateState, used: nat)
    reads s, s.window, s.out
  {
    && s.Shape() && s.lookahead == 0 && s.symNext == 0
    && Lagging(s, used) && 0 <= s.blockStart <= s.strStart && (used > 0 ==> s.blockStart == s.strStart)
    && StoredUpTo(s, s.base + s.blockStart + used)
    && s.CheckOk() && s.Sent() && s.out.Idle()
  }

  lemma SliceOfSlice(s: seq<byte>, lo: nat, hi: nat, i: nat, j: nat)
    requires lo <= hi <= |s| && i <= j <= hi - lo
    ensures s[lo..hi][i..j] == s[lo + i..lo + j]
  {
    var a, b := s[lo..hi][i..j], s[lo + i..lo + j];
    assert |a| == |b| && forall k :: 0 <= k < |a| ==> a[k] == b[k];
  }

  /** The bytes of a direct block are the next ones of the stream. */
  lemma NextBytes(read: seq<byte>, chunk: seq<byte>, win: seq<byte>, base: nat, start: nat, block: nat, used: nat,
                  left: nat)
    requires start <= |win| && base + start + used == |read| && win[..start] == read[base..base + start]
    requires block + left <= start && (used > 0 ==> block == start) && (|chunk| > 0 ==> block + left == start)
    ensures var from := base + block + used;
      && from <= |read| && from + left + |chunk| <= |read + chunk|
      && (read + chunk)[from..from + left + |chunk|] == win[block..block + left] + chunk
      && (read + chunk)[..from] == read[..from]
      && (read + chunk)[base..base + start] == read[base..base + start]
  {
    if used == 0 {
      assert win[block..block + left] == win[..start][block..block + left];
      SliceOfSlice(read, base, base + start, block, block + left);
      assert (read + chunk)[base + block..base + block + left + |chunk|] ==
             read[base + block..base + block + left] + chunk;
    } else {
      assert win[block..block + left] == [];
    }
  }

  ghost predicate Stores(block: Block, len: nat) { block.Stored? && |block.data| == len }

  /** A direct block keeps the account straight. */
  method CopyBlock(s: DeflateState, len: nat, last: bool, ghost used: nat)
    requires Copying(s, used) && Open(s.blocks)
    requires len <= MAX_STORED && HeaderBytes(s.out) + len <= s.out.availOut
    requires len <= s.strStart - s.blockStart + |s.nextIn|
    modifies s`nextIn, s`totalIn, s`check, s`S, s`blockStart, s`blocks, s.out
    ensures |s.nextIn| <= |old(s.nextIn)| && s.out.Room() == old(s.out.Room())
    ensures s.out.availOut == old(s.out.availOut - HeaderBytes(s.out)) - len && s.out.bits == []
    ensures |s.blocks| == |old(s.blocks)| + 1 && s.blocks[..|old(s.blocks)|] == old(s.blocks)
    ensures Stores(s.blocks[|old(s.blocks)|], len)
    ensures Copying(s, used + |old(s.nextIn)| - |s.nextIn|)
    ensures Unsent(s) == old(Unsent(s)) - len
    ensures s.S + s.nextIn == old(s.S + s.nextIn) && old(s.S) <= s.S
    ensures if last then Closed(s.blocks) else Open(s.blocks)
  {
    hide Encode, DecodesTo, DeflateState.CheckOk, DeflateState.Sent, BitsOf, WellFormed, DeflateState.Shape;
    s.Sizes();
    var left: nat := s.strStart - s.blockStart;
    if left > len { left := len; }
    ghost var from := s.base + s.blockStart + used;
    ghost var blocks, read, block := s.blocks, s.S, s.blockStart;
    NextBytes(s.S, s.nextIn[..len - left], s.window[..], s.base, s.strStart, block, used, left);
    TakeFromRest(s.S, s.nextIn, len - left);
    DecodesGrows(s.MaxDist(), s.blocks, s.restart, s.S, s.S + s.nextIn[..len - left], from);
    var chunk := SendDirect(s, len, left, last);
    StoredStep(s.MaxDist(), blocks, s.restart, s.S, from, s.window[block..block + left] + chunk, last);
  }

  /** The bytes in front of the data of a stored block, with what is in the bit buffer. */
  function HeaderBytes(out: Output): nat
    reads out`bits
  {
    (|out.bits| + 42) / 8
  }

  /** The smallest block worth sending while not flushing. */
  function MinBlock(s: DeflateState): int {
    if s.PendingBufSize() - 5 > s.wSize then s.wSize else s.PendingBufSize() - 5
  }

  /** What has been read or given, but not sent. */
  ghost function Unsent(s: DeflateState): int
    reads s`strStart, s`blockStart, s`nextIn
  {
    s.strStart - s.blockStart + |s.nextIn|
  }

  /** Why the direct copies stopped short: little room is left, or little data. */
  ghost predicate Cramped(s: DeflateState)
    reads s.out
  {
    s.out.availOut < HeaderBytes(s.out) + MinBlock(s)
  }

  ghost predicate Stuck(s: DeflateState, flush: Flush)
    reads s`strStart, s`blockStart, s`nextIn, s.out
  {
    if flush.NoFlush? then Cramped(s) || Unsent(s) < MinBlock(s)
    else (Unsent(s) == 0 && !flush.Finish?) || (Cramped(s) && s.out.availOut < HeaderBytes(s.out) + Unsent(s))
  }

  /** The do-while loop of deflate_stored: min_block or larger blocks go straight out while there is room. */
  method CopyDirect(s: DeflateState, flush: Flush) returns (last: bool)
    requires StoredInv(s) && s.out.Idle()
    modifies s`nextIn, s`totalIn, s`check, s`S, s`blockStart, s`blocks, s.out
    ensures |s.nextIn| <= |old(s.nextIn)| && Copying(s, |old(s.nextIn)| - |s.nextIn|)
    ensures s.out.availOut <= old(s.out.availOut) && s.out.Room() == old(s.out.Room())
    ensures s.S + s.nextIn == old(s.S + s.nextIn) && old(s.S) <= s.S
    ensures if last then Closed(s.blocks) && flush.Finish? && s.nextIn == [] && s.blockStart == s.strStart
            else Open(s.blocks) && Stuck(s, flush)
    ensures Unsent(s) <= old(Unsent(s))
    // the blocks are as long as they can be, and worth their while
    ensures |s.blocks| >= old(|s.blocks|) && s.blocks[..|old(s.blocks)|] == old(s.blocks)
    ensures forall i :: old(|s.blocks|) <= i < |s.blocks| - 1 ==> Stores(s.blocks[i], 65535)
    ensures |s.blocks| > old(|s.blocks|) && flush.NoFlush? ==>
              var b := s.blocks[|s.blocks| - 1]; b.Stored? && |b.data| >= Min(4 * s.litBufsize - 5, s.wSize)
    ensures Unsent(s) == old(Unsent(s)) && !last ==>
              s.out.availOut == old(s.out.availOut) && s.out.bits == old(s.out.bits)
  {
    hide Encode, DecodesTo, DeflateState.CheckOk, DeflateState.Sent, BitsOf, Lagging, StoredUpTo, Closed, Open;
    var minBlock := MinBlock(s);
    last := false;
    while !last
      invariant Unsent(s) <= old(Unsent(s))
      invariant |s.blocks| >= old(|s.blocks|) && s.blocks[..|old(s.blocks)|] == old(s.blocks)
      invariant forall i :: old(|s.blocks|) <= i < |s.blocks| - 1 ==> Stores(s.blocks[i], 65535)
      invariant |s.blocks| > old(|s.blocks|) ==>
        var b := s.blocks[|s.blocks| - 1];
        && b.Stored? && (flush.NoFlush? ==> |b.data| >= Min(4 * s.litBufsize - 5, s.wSize))
        && (!last ==> |b.data| == 65535 || s.out.availOut == 0 || (Unsent(s) == 0 && !flush.Finish?))
      invariant Unsent(s) == old(Unsent(s)) && !last ==>
                  s.out.availOut == old(s.out.availOut) && s.out.bits == old(s.out.bits)
      invariant |s.nextIn| <= |old(s.nextIn)| && Copying(s, |old(s.nextIn)| - |s.nextIn|)
      invariant s.out.availOut <= old(s.out.availOut) && s.out.Room() == old(s.out.Room())
      invariant s.S + s.nextIn == old(s.S + s.nextIn) && old(s.S) <= s.S
      invariant if last then Closed(s.blocks) && flush.Finish? && s.nextIn == [] && s.blockStart == s.strStart
                else Open(s.blocks)
      decreases Unsent(s), !last
    {
      var len: nat := MAX_STORED;
      var have := HeaderBytes(s.out);
      if s.out.availOut < have { break; }
      have := s.out.availOut - have;
      var left := s.strStart - s.blockStart;
      if len > left + |s.nextIn| { len := left + |s.nextIn|; }
      if len > have { len := have; }
      if len < minBlock &&
         ((len == 0 && !flush.Finish?) || flush.NoFlush? || len != left + |s.nextIn|) {
        break;
      }
      last := flush.Finish? && len == left + |s.nextIn|;
      CopyBlock(s, len, last, |old(s.nextIn)| - |s.nextIn|);
    }
  }

  /** The upper part of the window, moved to the front, holds the bytes from w on. */
  lemma HistoryMoves(win: seq<byte>, win': seq<byte>, s: seq<byte>, base: nat, start: nat, w: nat)
    requires w <= start <= |win| && start - w <= |win'| && base + start <= |s|
    requires win[..start] == s[base..base + start] && win'[..start - w] == win[w..start]
    ensures win'[..start - w] == s[base + w..base + start]
  {
    SliceOfSlice(s, base, base + start, w, start);
    SliceOfSlice(win, 0, start, w, start);
  }

  method MoveHistory(s: DeflateState, ghost used: nat)
    requires s.Shape() && Lagging(s, used) && s.wSize <= s.strStart
    modifies s`base, s`strStart, s`written, s.window
    ensures old(s.written) <= s.written
    ensures Lagging(s, used) && s.base == old(s.base) + s.wSize && s.strStart == old(s.strStart) - s.wSize
  {
    hide DeflateState.Shape;
    s.Sizes();
    var w := s.wSize;
    ghost var win := s.window[..];
    s.strStart := s.strStart - w;
    s.written := CopyDown(s.window, w, s.strStart, s.written);
    HistoryMoves(win, s.window[..], s.S, s.base, s.strStart + w, w);
    s.base := s.base + w;
  }

  /** Moves the upper half of the window down; the caller counts the missed slide_hash. */
  method SlideDown(s: DeflateState, ghost used: nat)
    requires s.Shape() && Lagging(s, used) && s.wSize <= s.strStart
    modifies s`base, s`strStart, s`insert, s`matches, s`written, s.window
    ensures old(s.written) <= s.written
    ensures Lagging(s, used) && s.base == old(s.base) + s.wSize && s.strStart == old(s.strStart) - s.wSize
    ensures old(s.insert == Min(s.strStart, s.wSize)) ==> s.insert == Min(s.strStart, s.wSize)
    ensures s.matches == if old(s.matches) < 2 then old(s.matches) + 1 else old(s.matches)
  {
    MoveHistory(s, used);
    if s.matches < 2 { s.matches := s.matches + 1; }
    if s.insert > s.strStart { s.insert := s.strStart; }
  }

  /** Appends bytes that have been read to the window. */
  method AppendToWindow(s: DeflateState, chunk: seq<byte>)
    requires s.Shape() && Lagging(s, |chunk|) && s.strStart + |chunk| <= 2 * s.wSize
    requires chunk == s.S[|s.S| - |chunk|..] && s.insert == Min(s.strStart, s.wSize)
    modifies s`strStart, s`insert, s`written, s.window
    ensures Lagging(s, 0) && s.strStart == old(s.strStart) + |chunk|
    ensures s.insert == Min(s.strStart, s.wSize) && old(s.written) <= s.written
  {
    s.written := CopyIn(s.window, s.strStart, chunk, s.written);
    s.strStart := s.strStart + |chunk|;
    s.insert := s.insert + Min(|chunk|, s.wSize - s.insert);
    CutEnd(s.S, s.base, s.base + old(s.strStart), |chunk|);
  }

  lemma CutEnd(s: seq<byte>, lo: nat, mid: nat, n: nat)
    requires lo <= mid && mid + n == |s|
    ensures s[lo..mid + n] == s[lo..mid] + s[|s| - n..]
  {
  }

  /** Replaces the whole history by the last w_size bytes that were copied. */
  method Supplant(s: DeflateState, copied: seq<byte>)
    requires s.Shape() && |copied| >= s.wSize && |copied| <= |s.S| && copied == s.S[|s.S| - |copied|..]
    modifies s`base, s`strStart, s`insert, s`matches, s`written, s.window
    ensures Lagging(s, 0) && s.insert == s.strStart == s.wSize && s.matches == 2 && old(s.written) <= s.written
  {
    var w, used := s.wSize, |copied|;
    s.matches := 2;
    s.written := CopyIn(s.window, 0, copied[used - w..], s.written);
    DropDrop(s.S, |s.S| - used, used - w);
    s.base := |s.S| - w;
    s.strStart := w;
    s.insert := s.strStart;
  }

  /** Brings the window up to date with the bytes that were copied directly. */
  method KeepHistory(s: DeflateState, copied: seq<byte>)
    requires s.Shape() && Lagging(s, |copied|) && 0 < |copied| <= |s.S| && copied == s.S[|s.S| - |copied|..]
    requires s.insert == Min(s.strStart, s.wSize) && s.strStart <= 2 * s.wSize
    modifies s`base, s`strStart, s`blockStart, s`insert, s`matches, s`written, s.window
    ensures Lagging(s, 0) && s.blockStart == s.strStart && old(s.written) <= s.written
    ensures s.base + s.blockStart == |s.S|
    ensures s.insert == Min(s.strStart, s.wSize)
  {
    hide Lagging;
    if |copied| >= s.wSize {
      Supplant(s, copied);
    } else {
      if 2 * s.wSize - s.strStart <= |copied| {
        SlideDown(s, |copied|);
      }
      AppendToWindow(s, copied);
    }
    s.blockStart := s.strStart;
  }

  method RaiseHighWater(s: DeflateState)
    requires s.Initialised(s.highWater) && s.Initialised(s.strStart)
    modifies s`highWater
    ensures s.Initialised(s.highWater) && s.strStart <= s.highWater
  {
    if s.highWater < s.strStart { s.highWater := s.strStart; }
  }

  /** Slides the window down if the input would not fit and nothing unsent is in the lower half. */
  method MakeRoom(s: DeflateState)
    requires StoredInv(s) && s.out.Idle()
    modifies s`base, s`strStart, s`blockStart, s`insert, s`matches, s`written, s.window
    ensures StoredInv(s) && s.out.Idle() && Unsent(s) == old(Unsent(s))
    ensures s.base + s.blockStart == old(s.base + s.blockStart)
    ensures |s.nextIn| > 2 * s.wSize - s.strStart ==> s.blockStart <= s.wSize
  {
    hide Encode, DecodesTo, DeflateState.CheckOk, DeflateState.Sent, BitsOf, Open, StoredUpTo;
    if |s.nextIn| > 2 * s.wSize - s.strStart && s.blockStart >= s.wSize {
      s.blockStart := s.blockStart - s.wSize;
      SlideDown(s, 0);
    }
  }

  lemma SliceGrows(s: seq<byte>, s': seq<byte>, lo: nat, hi: nat)
    requires s <= s' && lo <= hi <= |s|
    ensures s[lo..hi] == s'[lo..hi]
  {
  }

  lemma StoredBounds(s: DeflateState)
    requires StoredInv(s)
    ensures s.Shape() && 0 <= s.blockStart <= s.strStart <= 2 * s.wSize
  {
  }

  /** read_buf into the window, for bytes that fit. */
  method ReadStored(s: DeflateState, len: nat)
    requires StoredInv(s) && s.out.Idle() && len <= |s.nextIn| && s.strStart + len <= 2 * s.wSize
    modifies s`strStart, s`insert, s`written, s`nextIn, s`totalIn, s`check, s`S, s.window
    ensures StoredInv(s) && s.out.Idle()
    ensures s.strStart == old(s.strStart) + len && |s.nextIn| == |old(s.nextIn)| - len
    ensures s.S + s.nextIn == old(s.S + s.nextIn) && old(s.S) <= s.S
  {
    hide DecodesTo, DeflateState.CheckOk, DeflateState.Sent, DeflateState.Shape, Open;
    s.Sizes();
    TakeFromRest(s.S, s.nextIn, len);
    DecodesGrows(s.MaxDist(), s.blocks, s.restart, s.S, s.S + s.nextIn[..len], s.base + s.blockStart);
    SliceGrows(s.S, s.S + s.nextIn[..len], s.base, s.base + s.strStart);
    var chunk := ReadBuf(s, len);
    AppendToWindow(s, chunk);
  }

  method RaiseStored(s: DeflateState)
    requires StoredInv(s)
    modifies s`highWater
    ensures StoredInv(s)
  {
    hide DecodesTo, DeflateState.CheckOk, DeflateState.Sent, DeflateState.Shape, Open;
    RaiseHighWater(s);
  }

  /** Fills the window with any remaining input. */
  method FillStored(s: DeflateState)
    requires StoredInv(s) && s.out.Idle()
    modifies s`base, s`strStart, s`blockStart, s`insert, s`matches, s`written, s`highWater
    modifies s`nextIn, s`totalIn, s`check, s`S, s.window
    ensures StoredInv(s) && s.out.Idle()
    ensures s.S + s.nextIn == old(s.S + s.nextIn) && old(s.S) <= s.S
    ensures |s.nextIn| <= |old(s.nextIn)| && Unsent(s) == old(Unsent(s))
    ensures s.nextIn == [] || s.strStart - s.blockStart >= s.wSize
    ensures s.base + s.blockStart == old(s.base + s.blockStart)
  {
    hide StoredInv, DeflateState.Shape;
    MakeRoom(s);
    StoredBounds(s);
    var have := Min(2 * s.wSize - s.strStart, |s.nextIn|);
    if have > 0 {
      ReadStored(s, have);
    }
    RaiseStored(s);
  }

  /** The unsent window bytes are the next ones of the stream. */
  lemma UnsentBytes(s: DeflateState, len: nat)
    requires s.Shape() && Lagging(s, 0) && 0 <= s.blockStart && s.blockStart + len <= s.strStart <= 2 * s.wSize
    ensures var n := s.base + s.blockStart;
      n + len <= |s.S| && s.S[n..n + len] == s.window[s.blockStart..s.blockStart + len]
  {
    SliceOfSlice(s.S, s.base, s.base + s.strStart, s.blockStart, s.blockStart + len);
    SliceOfSlice(s.window[..], 0, s.strStart, s.blockStart, s.blockStart + len);
  }

  /** Queues one block of the unsent window bytes. */
  method QueueBlock(s: DeflateState, len: nat, last: bool)
    requires StoredInv(s) && s.out.Idle() && len <= s.strStart - s.blockStart && len <= MAX_STORED
    requires HeaderBytes(s.out) + len <= s.PendingBufSize()
    modifies s`blockStart, s`blocks, s.out
    ensures s.Sent() && s.out.pendingOut == 0 && s.out.pending == old(HeaderBytes(s.out)) + len && s.out.bits == []
    ensures s.out.availOut == old(s.out.availOut) && s.out.delivered == old(s.out.delivered)
    ensures s.blockStart == old(s.blockStart) + len && StoredUpTo(s, s.base + s.blockStart)
    ensures |s.blocks| == |old(s.blocks)| + 1 && s.blocks[..|old(s.blocks)|] == old(s.blocks)
    ensures Stores(s.blocks[|old(s.blocks)|], len)
    ensures if last then Closed(s.blocks) else Open(s.blocks)
  {
    hide Encode, DecodesTo, DeflateState.CheckOk, BitsOf, StoredBits, Padding;
    var data := s.window[s.blockStart..s.blockStart + len];
    UnsentBytes(s, len);
    StoredStep(s.MaxDist(), s.blocks, s.restart, s.S, s.base + s.blockStart, data, last);
    StreamSnoc(s.coder, s.header, s.blocks, Block.Stored(data, last), s.out.Stream());
    s.out.StoredBlock(data, last);
    s.blocks := s.blocks + [Block.Stored(data, last)];
    s.blockStart := s.blockStart + len;
  }

  lemma AllSent(s: DeflateState)
    requires s.Shape() && s.lookahead == 0 && s.symNext == 0 && Lagging(s, 0) && s.blockStart == s.strStart
    requires StoredUpTo(s, s.base + s.blockStart) && s.nextIn == []
    ensures Drained(s)
  {
  }

  /** Enough is left for a block: w_size bytes, or all of it when it must go and does not fit the output. */
  ghost predicate Worthy(s: DeflateState, flush: Flush)
    reads s`strStart, s`blockStart, s`nextIn, s.out
  {
    var left := s.strStart - s.blockStart;
    || left >= s.wSize
    || (!flush.NoFlush? && (left > 0 || flush.Finish?) && s.nextIn == []
        && s.out.availOut < HeaderBytes(s.out) + left)
  }

  /** Queues one block of the unsent window bytes, and delivers what fits. */
  method SendQueued(s: DeflateState, len: nat, last: bool)
    requires StoredInv(s) && s.out.Idle() && len <= s.strStart - s.blockStart && len <= MAX_STORED
    requires HeaderBytes(s.out) + len <= s.PendingBufSize()
    requires last ==> s.nextIn == [] && len == s.strStart - s.blockStart
    modifies s`blockStart, s`blocks, s.out
    ensures s.out.Flushed() && s.out.Room() == old(s.out.Room()) && s.blockStart == old(s.blockStart) + len
    ensures s.out.availOut <= old(s.out.availOut)
    ensures old(HeaderBytes(s.out)) + len >= old(s.out.availOut) ==> s.out.availOut == 0
    ensures if last then Ended(s) else StoredInv(s)
    ensures |s.blocks| == |old(s.blocks)| + 1 && s.blocks[..|old(s.blocks)|] == old(s.blocks)
    ensures Stores(s.blocks[|old(s.blocks)|], len)
  {
    hide Encode, DecodesTo, DeflateState.CheckOk, BitsOf, Lagging, StoredUpTo, Drained, Open, Closed;
    QueueBlock(s, len, last);
    s.out.FlushPending();
    if last { AllSent(s); }
  }

  /** What is left goes to the pending buffer as one block, if it is worth it or has to be flushed. */
  method SendPending(s: DeflateState, flush: Flush) returns (last: bool)
    requires StoredInv(s) && s.out.Idle()
    modifies s`blockStart, s`blocks, s.out
    ensures s.out.Flushed()
    ensures if last then Ended(s) && flush.Finish? else StoredInv(s)
    ensures s.out.availOut <= old(s.out.availOut) && s.out.Room() == old(s.out.Room())
    ensures old(Cramped(s) && Worthy(s, flush)) ==> s.out.Full()
    // one block of as much as fits the pending buffer, if that is w_size bytes, all it can hold, or all that is left
    ensures var left, most := old(s.strStart - s.blockStart), Min(4 * s.litBufsize - old(HeaderBytes(s.out)), 65535);
      if left >= Min(most, s.wSize)
         || (!flush.NoFlush? && s.nextIn == [] && left <= most && (left > 0 || flush.Finish?))
      then && |s.blocks| == |old(s.blocks)| + 1 && s.blocks[..|old(s.blocks)|] == old(s.blocks)
           && Stores(s.blocks[|old(s.blocks)|], Min(left, most))
           && last == (flush.Finish? && s.nextIn == [] && left <= most)
      else !last && s.blocks == old(s.blocks)
    ensures last || Quiet(s, old(s.base + s.blockStart), old(s.out.availOut), old(s.out.bits))
  {
    hide StoredInv, Ended, DeflateState.Shape;
    StoredBounds(s);
    s.Sizes();
    var have := HeaderBytes(s.out);
    have := Min(s.PendingBufSize() - have, MAX_STORED);
    var minBlock := Min(have, s.wSize);
    var left := s.strStart - s.blockStart;
    last := false;
    if left >= minBlock || ((left > 0 || flush.Finish?) && !flush.NoFlush? && s.nextIn == [] && left <= have) {
      var len := Min(left, have);
      last := flush.Finish? && s.nextIn == [] && len == left;
      SendQueued(s, len, last);
    }
  }

  /** After the direct copies: the window takes in what went past it. */
  method CatchUp(s: DeflateState, copied: seq<byte>)
    requires Copying(s, |copied|) && s.Initialised(s.highWater) && s.insert == Min(s.strStart, s.wSize)
    requires |copied| <= |s.S| && copied == s.S[|s.S| - |copied|..]
    modifies s`base, s`strStart, s`blockStart, s`insert, s`matches, s`written, s`highWater, s.window
    ensures Settled(s) && s.out.Idle()
    ensures s.strStart - s.blockStart == old(s.strStart - s.blockStart)
  {
    hide Encode, DecodesTo, DeflateState.CheckOk, DeflateState.Sent, BitsOf;
    if |copied| > 0 {
      KeepHistory(s, copied);
    }
    RaiseHighWater(s);
  }

  lemma UpToUnsent(s: DeflateState)
    requires Settled(s)
    ensures s.base + s.blockStart == |s.S| + |s.nextIn| - Unsent(s)
  {
  }

  /** What the direct copies have left: it goes to the window, and from there to the pending buffer. */
  method StoreRest(s: DeflateState, flush: Flush) returns (r: BlockState)
    requires StoredInv(s) && s.out.Idle() && Stuck(s, flush)
    requires Flushes(flush) ==> s.nextIn != [] || s.strStart != s.blockStart
    modifies s`base, s`strStart, s`blockStart, s`insert, s`matches, s`highWater, s`written
    modifies s`nextIn, s`totalIn, s`check, s`S, s`blocks, s.window, s.out
    ensures s.S + s.nextIn == old(s.S + s.nextIn) && old(s.S) <= s.S && |s.nextIn| <= |old(s.nextIn)|
    ensures match r
      case NeedMore => StoredInv(s) && Paused(s, flush)
      case FinishStarted => Ended(s) && s.out.Full() && flush.Finish?
      case _ => false
    ensures r.NeedMore? ==> Quiet(s, old(s.base + s.blockStart), old(s.out.availOut), old(s.out.bits))
    ensures s.out.availOut <= old(s.out.availOut) && s.out.Room() == old(s.out.Room())
  {
    hide StoredInv, Ended;
    StoredBounds(s);
    FillStored(s);
    StoredBounds(s);
    var last := SendPending(s, flush);
    return if last then FinishStarted else NeedMore;
  }

  /** deflate_stored. */
  method DeflateStored(s: DeflateState, flush: Flush) returns (r: BlockState)
    requires StoredInv(s) && s.out.Idle()
    modifies s`base, s`strStart, s`blockStart, s`insert, s`matches, s`highWater, s`written
    modifies s`nextIn, s`totalIn, s`check, s`S, s`blocks, s.window, s.out
    ensures s.S + s.nextIn == old(s.S + s.nextIn) && old(s.S) <= s.S
    ensures match r
      case NeedMore => StoredInv(s) && Paused(s, flush)
      case BlockDone => StoredInv(s) && s.out.Idle() && Drained(s) && !flush.NoFlush? && !flush.Finish?
      case FinishStarted => Ended(s) && s.out.Full() && flush.Finish?
      case FinishDone => Ended(s) && s.out.Idle() && flush.Finish?
    ensures r.NeedMore? || r.BlockDone? ==>
              Quiet(s, old(s.base + s.blockStart), old(s.out.availOut), old(s.out.bits))
    ensures s.out.availOut <= old(s.out.availOut) && s.out.Room() == old(s.out.Room()) && |s.nextIn| <= |old(s.nextIn)|
  {
    hide Encode, DecodesTo, DeflateState.CheckOk, DeflateState.Sent, BitsOf, Open, Closed, Drained, Lagging, StoredUpTo;
    var given := s.nextIn;
    UpToUnsent(s);
    var last := CopyDirect(s, flush);
    TakenFromInput(old(s.S), given, s.S, s.nextIn);
    CatchUp(s, given[..|given| - |s.nextIn|]);
    UpToUnsent(s);
    SameBytes(s.S, s.nextIn, old(s.S), given);
    if last {
      AllSent(s);
      return FinishDone;
    }
    if Flushes(flush) && s.nextIn == [] && s.strStart == s.blockStart {
      AllSent(s);
      return BlockDone;
    }
    r := StoreRest(s, flush);
  }
}

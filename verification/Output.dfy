/**
 The output side of deflate: the bit buffer of trees.c, the pending buffer, and the bytes handed
 to the application.  `put_byte` writes at pending_buf[pending], which is the end of the queue
 only while nothing in front of it has been taken away.
 */
module OutputSide {
  import opened Basics
  import opened Bits
  import opened Blocks

  lemma MovesFront(front: seq<byte>, buf: seq<byte>, lo: nat, mid: nat, hi: nat)
    requires lo <= mid <= hi <= |buf|
    ensures front + buf[lo..mid] + buf[mid..hi] == front + buf[lo..hi]
    ensures mid == hi ==> front + buf[lo..mid] + [] == front + buf[lo..hi]
  {
  }

  /**
   Header bits, padding and the four length bytes come to (bi_valid + 42) >> 3 bytes with what is in the bit
   buffer.
   */
  lemma StoredHeaderBytes(before: nat, after: nat, bits: nat, data: nat, padding: nat)
    requires padding < 8 && (8 * before + bits + 3 + padding) % 8 == 0
    requires 8 * after == 8 * before + bits + 3 + padding + 8 * (data + 4)
    ensures after == before + data + (bits + 42) / 8
  {
  }

  class Output {
    var delivered: seq<byte>     // written through next_out since the stream began
    var availOut: nat
    var pendingBuf: seq<byte>    // pending_buf, extended on demand
    var pending: nat             // bytes waiting
    var pendingOut: nat          // index of the first of them
    var bits: seq<bool>          // bi_buf, of length bi_valid

    constructor ()
      ensures Valid() && delivered == [] && pending == 0 && availOut == 0 && bits == []
      ensures Stream() == []
    {
      delivered, availOut, pendingBuf, pending, pendingOut, bits := [], 0, [], 0, 0, [];
    }

    ghost predicate Valid()
      reads this
    {
      && pendingOut + pending <= |pendingBuf|
      && |bits| <= 16
      && (pendingOut != 0 ==> pending != 0 && |bits| < 8)
    }

    /** Nothing waits to be delivered, except fewer than eight bits. */
    ghost predicate Idle()
      reads this
    {
      Valid() && pending == 0 && |bits| < 8
    }

    /** A flush has just been done: something may still be pending only if the application's buffer is full. */
    ghost predicate Flushed()
      reads this
    {
      Valid() && |bits| < 8 && (pending == 0 || availOut == 0)
    }

    ghost predicate Full()
      reads this
    {
      Flushed() && availOut == 0
    }

    /** The space the application has given in all: used and left. */
    ghost function Room(): nat
      reads `delivered, `availOut
    {
      |delivered| + availOut
    }

    ghost function Queue(): seq<byte>
      requires Valid()
      reads this
    {
      pendingBuf[pendingOut..pendingOut + pending]
    }

    /** Everything sent so far, as bits in order. */
    ghost function Stream(): seq<bool>
      requires Valid()
      reads this
    {
      BitsOf(delivered + Queue()) + bits
    }

    lemma StreamLength()
      requires Valid()
      ensures |Stream()| == 8 * (|delivered| + pending) + |bits|
    {
    }

    /** put_byte. */
    method PutByte(c: byte)
      requires Valid() && pendingOut == 0
      modifies `pendingBuf, `pending
      ensures Valid() && pending == old(pending) + 1
      ensures Queue() == old(Queue()) + [c]
    {
      pendingBuf := pendingBuf[..pending] + [c] + (if pending < |pendingBuf| then pendingBuf[pending + 1..] else []);
      pending := pending + 1;
    }

    method PutBytes(data: seq<byte>)
      requires Valid() && pendingOut == 0
      modifies `pendingBuf, `pending
      ensures Valid() && pending == old(pending) + |data|
      ensures Queue() == old(Queue()) + data
    {
      for i := 0 to |data|
        invariant Valid() && pending == old(pending) + i
        invariant Queue() == old(Queue()) + data[..i]
      {
        PutByte(data[i]);
      }
    }

    /** Moves the eight oldest bits to the queue. */
    method ShiftOutByte()
      requires Valid() && pendingOut == 0 && |bits| >= 8
      modifies `pendingBuf, `pending, `bits
      ensures Valid() && bits == old(bits)[8..] && pending == old(pending) + 1
      ensures Stream() == old(Stream())
    {
      hide BitsOfByte, ByteOfBits;
      ByteCarriesBits(delivered + Queue(), bits);
      PutByte(ByteOfBits(bits[..8]));
      bits := bits[8..];
      assert delivered + Queue() == old(delivered + Queue()) + [ByteOfBits(old(bits)[..8])];
    }

    /** send_bits: sixteen bits leave the buffer when a seventeenth arrives. */
    method SendBits(more: seq<bool>)
      requires Valid() && pendingOut == 0
      modifies `pendingBuf, `pending, `bits
      ensures Valid() && Stream() == old(Stream()) + more
    {
      hide BitsOfByte, ByteOfBits, BitsOf;
      for i := 0 to |more|
        invariant Valid()
        invariant Stream() == old(Stream()) + more[..i]
      {
        if |bits| == 16 {
          ShiftOutByte();
          ShiftOutByte();
        }
        ghost var was := Stream();
        bits := bits + [more[i]];
        assert Stream() == was + [more[i]];
        assert more[..i + 1] == more[..i] + [more[i]];
      }
    }

    /** bi_windup: pads to a byte boundary and empties the bit buffer. */
    method Windup()
      requires Valid() && pendingOut == 0
      modifies `pendingBuf, `pending, `bits
      ensures Valid() && bits == [] && pending <= old(pending) + 2
      ensures Stream() == old(Stream()) + Padding(|old(Stream())|)
    {
      hide BitsOfByte, ByteOfBits, BitsOf, Padding;
      PaddingAfterBytes(|delivered + Queue()|, |bits|);
      bits := bits + Padding(|bits|);
      assert Stream() == old(Stream()) + Padding(|old(Stream())|);
      while bits != []
        invariant Valid() && |bits| % 8 == 0 && pending + |bits| / 8 <= old(pending) + 2
        invariant Stream() == old(Stream()) + Padding(|old(Stream())|)
        decreases |bits|
      {
        ShiftOutByte();
      }
    }

    /** _tr_flush_bits, and the bi_flush it stands for. */
    method FlushBits()
      requires Valid()
      modifies `pendingBuf, `pending, `bits
      ensures Valid() && |bits| < 8 && pending >= old(pending)
      ensures Stream() == old(Stream())
      ensures old(|bits|) < 8 ==> bits == old(bits) && pending == old(pending) && pendingBuf == old(pendingBuf)
    {
      while |bits| >= 8
        invariant Valid() && Stream() == old(Stream()) && pending >= old(pending)
        invariant old(|bits|) < 8 ==> bits == old(bits) && pending == old(pending) && pendingBuf == old(pendingBuf)
        decreases |bits|
      {
        ShiftOutByte();
      }
    }

    /** Hands the next len bytes of the queue to the application. */
    method HandOver(len: nat)
      requires Valid() && |bits| < 8 && 0 < len <= pending && len <= availOut
      modifies `delivered, `availOut, `pending, `pendingOut
      ensures Valid() && delivered + Queue() == old(delivered + Queue())
      ensures |delivered| == |old(delivered)| + len
      ensures availOut == old(availOut) - len && pending == old(pending) - len
    {
      MovesFront(delivered, pendingBuf, pendingOut, pendingOut + len, pendingOut + pending);
      delivered := delivered + pendingBuf[pendingOut..pendingOut + len];
      pendingOut := pendingOut + len;
      availOut := availOut - len;
      pending := pending - len;
      if pending == 0 { pendingOut := 0; }
    }

    /** flush_pending: delivers as much of the queue as there is room for. */
    method FlushPending()
      requires Valid()
      modifies this
      ensures Valid() && |bits| < 8
      ensures Stream() == old(Stream())
      ensures pending == 0 || availOut == 0
      ensures old(|bits|) < 8 ==> bits == old(bits) && delivered + Queue() == old(delivered + Queue())
      ensures Room() == old(Room()) && availOut <= old(availOut)
      ensures old(pending) > 0 && old(availOut) > 0 ==> availOut < old(availOut)
      ensures old(|bits|) < 8 ==> availOut == if old(pending) > old(availOut) then 0 else old(availOut - pending)
      ensures old(|bits|) < 8 ==> pending == if old(pending) > old(availOut) then old(pending - availOut) else 0
    {
      hide BitsOf;
      FlushBits();
      var len := if pending > availOut then availOut else pending;
      if len == 0 { return; }
      HandOver(len);
    }

    /** Byte-aligned bytes join the stream as their bits. */
    method AppendBytes(data: seq<byte>)
      requires Valid() && pendingOut == 0 && bits == []
      modifies `pendingBuf, `pending
      ensures Valid() && Stream() == old(Stream()) + BitsOf(data)
      ensures pending == old(pending) + |data| && Queue() == old(Queue()) + data
    {
      hide BitsOf;
      BitsOfAppend(delivered + Queue(), data);
      PutBytes(data);
      assert delivered + Queue() == old(delivered + Queue()) + data;
    }

    /** The header bits of a stored block, up to the byte boundary. */
    method StoredHeader(last: bool)
      requires Valid() && pendingOut == 0
      modifies `pendingBuf, `pending, `bits
      ensures Valid() && bits == [] && pending <= old(pending) + 3
      ensures Stream() == old(Stream()) + [last, false, false] + Padding(|old(Stream())| + 3)
    {
      hide BitsOf;
      SendBits([last, false, false]);
      Windup();
    }

    /** _tr_stored_block. */
    method StoredBlock(data: seq<byte>, last: bool)
      requires Valid() && pendingOut == 0 && |data| <= MAX_STORED
      modifies `pendingBuf, `pending, `bits
      ensures Valid() && bits == []
      ensures Stream() == old(Stream()) + StoredBits(|old(Stream())|, data, last)
      ensures pending == old(pending) + |data| + (old(|bits|) + 42) / 8
      ensures BitsOf(delivered + Queue()[..pending - |data| - 4]) ==
              old(Stream()) + [last, false, false] + Padding(|old(Stream())| + 3)
    {
      hide BitsOf, Padding, StoredPayload;
      PayloadLength(data);
      ghost var front := [last, false, false] + Padding(|Stream()| + 3);
      assert StoredBits(|Stream()|, data, last) == front + BitsOf(StoredPayload(data));
      StoredHeader(last);
      assert Stream() == old(Stream()) + front;
      ghost var queued := Queue();
      AppendBytes(StoredPayload(data));
      assert Queue()[..pending - |data| - 4] == queued;
      assert |Stream()| == 8 * |delivered| + 8 * pending;
      StoredHeaderBytes(|delivered| + old(pending), |delivered| + pending, |old(bits)|, |data|,
                        |Padding(|old(Stream())| + 3)|);
    }

    /** Overwrites the lengths at the end of the queue, as deflate_stored does with a dummy block. */
    method PatchLengths(len: nat, last: bool, ghost was: seq<bool>)
      requires Valid() && pendingOut == 0 && bits == [] && pending >= 4 && len <= MAX_STORED
      requires BitsOf(delivered + Queue()[..pending - 4]) == was + [last, false, false] + Padding(|was| + 3)
      modifies `pendingBuf
      ensures Valid()
      ensures Stream() == was + StoredFront(|was|, len, last)
    {
      hide BitsOf, Padding, Low;
      ghost var front := Queue()[..pending - 4];
      var lengths := Short(len) + Short(MAX_STORED - len);
      pendingBuf := pendingBuf[pending - 4 := lengths[0]][pending - 3 := lengths[1]]
                              [pending - 2 := lengths[2]][pending - 1 := lengths[3]];
      assert Queue() == front + lengths;
      assert delivered + Queue() == (delivered + front) + lengths;
      BitsOfAppend(delivered + front, lengths);
    }

    /** Writes straight to the application's buffer, past an empty queue. */
    method Deliver(data: seq<byte>)
      requires Valid() && pending == 0 && bits == [] && |data| <= availOut
      modifies `delivered, `availOut
      ensures Valid() && Stream() == old(Stream()) + BitsOf(data)
      ensures delivered == old(delivered) + data && availOut == old(availOut) - |data|
    {
      hide BitsOf;
      BitsOfAppend(delivered, data);
      assert Queue() == [];
      assert delivered + [] == delivered && (delivered + data) + [] == delivered + data;
      delivered := delivered + data;
      availOut := availOut - |data|;
    }

    /** The coded form of a block, as trees.c sends it. */
    method CodedBlock(code: seq<bool>, last: bool)
      requires Valid() && pendingOut == 0
      modifies `pendingBuf, `pending, `bits
      ensures Valid()
      ensures Stream() == old(Stream()) + CodedBits(|old(Stream())|, code, last)
    {
      hide BitsOf, Padding;
      SendBits(code);
      if last { Windup(); }
    }
  }
}

/** Deflate blocks: what they decode to, and the bits that carry them. */
module Blocks {
  import opened Basics
  import opened Lz77
  import opened Bits

  /** The Huffman coder of trees.c: the bits it sends for a block's symbols. */
  datatype Coder = Coder(code: (seq<Symbol>, bool) -> seq<bool>)

  function CodeOf(coder: Coder, syms: seq<Symbol>, last: bool): seq<bool> {
    coder.code(syms, last)
  }

  /**
   A block of coded symbols, a stored block (section 3.2.4 of RFC 1951), or the empty fixed-code block
   that a partial flush sends.
   */
  datatype Block =
    | Coded(syms: seq<Symbol>, last: bool)
    | Stored(data: seq<byte>, last: bool)
    | Align

  predicate IsLast(block: Block) { !block.Align? && block.last }

  const MAX_STORED: nat := 65535

  ghost predicate WellFormed(block: Block) {
    block.Stored? ==> |block.data| <= MAX_STORED
  }

  /** LEN, NLEN and the data of a stored block. */
  function StoredPayload(data: seq<byte>): seq<byte>
    requires |data| <= MAX_STORED
  {
    Short(|data|) + Short(MAX_STORED - |data|) + data
  }

  lemma PayloadLength(data: seq<byte>)
    requires |data| <= MAX_STORED
    ensures |StoredPayload(data)| == |data| + 4
  {
  }

  /** The bits of a stored block that starts at bit position pos of the stream. */
  function StoredBits(pos: nat, data: seq<byte>, last: bool): seq<bool>
    requires |data| <= MAX_STORED
  {
    [last, false, false] + Padding(pos + 3) + BitsOf(StoredPayload(data))
  }

  /** The bits of a coded block: the last one is padded to a byte boundary. */
  function CodedBits(pos: nat, code: seq<bool>, last: bool): seq<bool> {
    code + (if last then Padding(pos + |code|) else [])
  }

  /** Block type 01, then the seven zero bits of the end-of-block code. */
  const ALIGN_BITS: seq<bool> := [false, true, false, false, false, false, false, false, false, false]

  /** The bits of a block that starts at bit position pos of the stream. */
  function BlockBits(coder: Coder, pos: nat, block: Block): seq<bool>
    requires WellFormed(block)
  {
    match block
    case Coded(syms, last) => CodedBits(pos, CodeOf(coder, syms, last), last)
    case Stored(data, last) => StoredBits(pos, data, last)
    case Align => ALIGN_BITS
  }

  /** The part of a stored block in front of its data. */
  function StoredFront(pos: nat, len: nat, last: bool): seq<bool>
    requires len <= MAX_STORED
  {
    [last, false, false] + Padding(pos + 3) + BitsOf(Short(len) + Short(MAX_STORED - len))
  }

  lemma Assoc(a: seq<bool>, b: seq<bool>, c: seq<bool>)
    ensures a + (b + c) == a + b + c
  {
  }

  lemma AppendThird(a: seq<bool>, b: seq<bool>, c: seq<bool>, bc: seq<bool>)
    requires bc == b + c
    ensures a + b + c == a + bc
  {
    Assoc(a, b, c);
  }

  lemma FrontAndData(pos: nat, data: seq<byte>, last: bool)
    requires |data| <= MAX_STORED
    ensures StoredBits(pos, data, last) == StoredFront(pos, |data|, last) + BitsOf(data)
  {
    hide BitsOf, Padding, Short;
    var lengths := Short(|data|) + Short(MAX_STORED - |data|);
    BitsOfAppend(lengths, data);
    assert StoredPayload(data) == lengths + data;
    Assoc([last, false, false] + Padding(pos + 3), BitsOf(lengths), BitsOf(data));
  }

  ghost predicate AllWellFormed(blocks: seq<Block>) {
    forall i :: 0 <= i < |blocks| ==> WellFormed(blocks[i])
  }

  function Encode(coder: Coder, pos: nat, blocks: seq<Block>): seq<bool>
    requires AllWellFormed(blocks)
  {
    if blocks == [] then []
    else
      var front := Encode(coder, pos, blocks[..|blocks| - 1]);
      front + BlockBits(coder, pos + |front|, blocks[|blocks| - 1])
  }

  /** What one block adds to the output. */
  function DecodeBlock(reach: nat, out: seq<byte>, block: Block): Option<seq<byte>> {
    match block
    case Coded(syms, _) => Decode(reach, out, syms)
    case Stored(data, _) => Some(out + data)
    case Align => Some(out)
  }

  function DecodeAll(reach: nat, blocks: seq<Block>): Option<seq<byte>> {
    if blocks == [] then Some([])
    else
      var front := DecodeAll(reach, blocks[..|blocks| - 1]);
      if front.None? then None else DecodeBlock(reach, front.value, blocks[|blocks| - 1])
  }

  lemma EncodeSnoc(coder: Coder, pos: nat, blocks: seq<Block>, block: Block)
    requires AllWellFormed(blocks) && WellFormed(block)
    ensures AllWellFormed(blocks + [block])
    ensures Encode(coder, pos, blocks + [block]) ==
            Encode(coder, pos, blocks) + BlockBits(coder, pos + |Encode(coder, pos, blocks)|, block)
  {
    hide BlockBits, WellFormed;
    var all := blocks + [block];
    assert all[..|all| - 1] == blocks && all[|all| - 1] == block;
    assert forall i :: 0 <= i < |all| ==> all[i] == (if i < |blocks| then blocks[i] else block);
  }

  /** A stream of a header and blocks, with one more block behind it. */
  lemma StreamSnoc(coder: Coder, header: seq<byte>, blocks: seq<Block>, block: Block, stream: seq<bool>)
    requires AllWellFormed(blocks) && WellFormed(block)
    requires stream == BitsOf(header) + Encode(coder, 8 * |header|, blocks)
    ensures AllWellFormed(blocks + [block])
    ensures stream + BlockBits(coder, |stream|, block) ==
            BitsOf(header) + Encode(coder, 8 * |header|, blocks + [block])
  {
    hide BitsOf, Encode, BlockBits, AllWellFormed, WellFormed;
    var h, e := BitsOf(header), Encode(coder, 8 * |header|, blocks);
    assert |stream| == 8 * |header| + |e|;
    EncodeSnoc(coder, 8 * |header|, blocks, block);
    AppendThird(h, e, BlockBits(coder, |stream|, block), Encode(coder, 8 * |header|, blocks + [block]));
  }

  lemma DecodeBlockSnoc(reach: nat, blocks: seq<Block>, block: Block)
    requires AllWellFormed(blocks) && WellFormed(block) && DecodeAll(reach, blocks).Some?
    ensures AllWellFormed(blocks + [block])
    ensures DecodeAll(reach, blocks + [block]) == DecodeBlock(reach, DecodeAll(reach, blocks).value, block)
  {
    hide DecodeBlock;
    assert (blocks + [block])[..|blocks|] == blocks;
  }

  lemma BlockWithHistory(reach: nat, before: seq<byte>, out: seq<byte>, block: Block)
    requires DecodeBlock(reach, out, block).Some?
    ensures DecodeBlock(reach, before + out, block) == Some(before + DecodeBlock(reach, out, block).value)
  {
    match block {
      case Coded(syms, _) => DecodeWithHistory(reach, before, out, syms);
      case Stored(data, _) => assert before + out + data == before + (out + data);
      case Align =>
    }
  }

  /** Blocks that decode without the ones before them decode to the same bytes after them. */
  lemma {:induction false} DecodeConcat(reach: nat, a: seq<Block>, b: seq<Block>)
    requires DecodeAll(reach, a).Some? && DecodeAll(reach, b).Some?
    ensures DecodeAll(reach, a + b) == Some(DecodeAll(reach, a).value + DecodeAll(reach, b).value)
  {
    var x := DecodeAll(reach, a).value;
    if b == [] {
      assert a + b == a && x + [] == x;
    } else {
      var front, block := b[..|b| - 1], b[|b| - 1];
      DecodeConcat(reach, a, front);
      BlockWithHistory(reach, x, DecodeAll(reach, front).value, block);
      assert (a + b)[..|a + b| - 1] == a + front;
    }
  }

  /** A point at which decoding may start afresh: after this many blocks, at this byte of the input. */
  datatype Restart = Restart(blocks: nat, at: nat)

  /** The blocks decode to s[..n], and those after the restart point need nothing that was before it. */
  ghost predicate DecodesTo(reach: nat, blocks: seq<Block>, r: Restart, s: seq<byte>, n: int) {
    && r.blocks <= |blocks| && r.at <= n <= |s| && AllWellFormed(blocks)
    && DecodeAll(reach, blocks[..r.blocks]) == Some(s[..r.at])
    && DecodeAll(reach, blocks[r.blocks..]) == Some(s[r.at..n])
  }

  lemma DecodesBounds(reach: nat, blocks: seq<Block>, r: Restart, s: seq<byte>, n: int)
    requires DecodesTo(reach, blocks, r, s, n)
    ensures r.at <= n <= |s|
  {
  }

  lemma DecodesAll(reach: nat, blocks: seq<Block>, r: Restart, s: seq<byte>, n: int)
    requires DecodesTo(reach, blocks, r, s, n)
    ensures DecodeAll(reach, blocks) == Some(s[..n])
  {
    DecodeConcat(reach, blocks[..r.blocks], blocks[r.blocks..]);
    assert blocks[..r.blocks] + blocks[r.blocks..] == blocks;
    assert s[..r.at] + s[r.at..n] == s[..n];
  }

  lemma DecodesGrows(reach: nat, blocks: seq<Block>, r: Restart, s: seq<byte>, s': seq<byte>, n: int)
    requires DecodesTo(reach, blocks, r, s, n) && s <= s'
    ensures DecodesTo(reach, blocks, r, s', n)
  {
    assert s'[..r.at] == s[..r.at] && s'[r.at..n] == s[r.at..n];
  }

  /** One more block, which takes the decoder from n to m. */
  lemma DecodesSnoc(reach: nat, blocks: seq<Block>, r: Restart, s: seq<byte>, n: int, block: Block, m: int)
    requires DecodesTo(reach, blocks, r, s, n) && WellFormed(block) && n <= m <= |s|
    requires DecodeBlock(reach, s[r.at..n], block) == Some(s[r.at..m])
    ensures DecodesTo(reach, blocks + [block], r, s, m)
  {
    hide DecodeBlock, DecodeAll, AllWellFormed;
    WellFormedParts(blocks, r.blocks, block);
    DecodeBlockSnoc(reach, blocks[r.blocks..], block);
  }

  lemma WellFormedParts(blocks: seq<Block>, k: nat, block: Block)
    requires AllWellFormed(blocks) && k <= |blocks| && WellFormed(block)
    ensures AllWellFormed(blocks[k..]) && AllWellFormed(blocks + [block])
    ensures (blocks + [block])[k..] == blocks[k..] + [block] && (blocks + [block])[..k] == blocks[..k]
  {
    hide WellFormed;
    var all := blocks + [block];
    assert forall i :: 0 <= i < |all| ==> all[i] == (if i < |blocks| then blocks[i] else block);
  }

  /** Once everything has been sent, decoding may start afresh at the end. */
  lemma RestartAtEnd(reach: nat, blocks: seq<Block>, r: Restart, s: seq<byte>)
    requires DecodesTo(reach, blocks, r, s, |s|)
    ensures DecodesTo(reach, blocks, Restart(|blocks|, |s|), s, |s|)
  {
    DecodesAll(reach, blocks, r, s, |s|);
    assert blocks[..|blocks|] == blocks && blocks[|blocks|..] == [];
    assert s[|s|..|s|] == [];
  }
}

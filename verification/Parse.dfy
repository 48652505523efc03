/**
 The parse of the input that a compression function makes: which symbols it tallies, move by move, and how they
 go out in blocks.
 */
module Parses {
  import opened Basics
  import opened Lz77
  import opened Blocks
  import Memory
  import opened DeflateStates
  import opened Flushing
  import opened Longest

  /**
   Where a compression function stands between moves: at a stream position, perhaps with the byte before it still
   to be tallied, and with that byte perhaps the start of a match of length len at distance dist; len is 2 and
   dist 0 if there is none.
   */
  datatype Stand = Stand(at: nat, waiting: bool, len: nat, dist: nat)

  function Plain(at: nat): Stand { Stand(at, false, 2, 0) }

  /** One move: what it saw, where it started and ended, what it tallied, and the strings entered by its end. */
  datatype Move = Move(v: Situation, from: Stand, to: Stand, syms: seq<Symbol>, after: set<nat>)

  /** The whole strings from the start of a move up to `end`. */
  ghost function Whole(v: Situation, end: nat): set<nat> {
    set a | a in Memory.Span(v.at, end) && a + MIN_MATCH <= |v.input|
  }

  /** What a move sees is where it stands. */
  ghost predicate Sees(m: Move) {
    m.v.at == m.from.at && m.v.at + m.v.ahead == |m.v.input|
  }

  /**
   The move of deflate_slow.  A waiting match is tallied, unless a longer one is found at the next byte; then, or
   if no match is waiting, the waiting byte is a literal, and the next one waits with what was found.  At the end
   of the input the waiting byte is a literal.  Every whole string is entered.
   */
  ghost predicate LazyMove(m: Move, filtered: bool) {
    && Sees(m) && m.v.toBeat == m.from.len && m.after == m.v.entered + Whole(m.v, m.to.at)
    && if m.v.ahead == 0 then
         m.from.waiting && m.from.at >= 1 && m.from.len == 2 && m.to == Plain(m.from.at)
         && m.syms == [Literal(m.v.input[m.from.at - 1])]
       else if m.to.waiting then
         && m.to.at == m.from.at + 1
         && (if m.from.waiting then m.from.at >= 1 && m.syms == [Literal(m.v.input[m.from.at - 1])] else m.syms == [])
         && (if m.to.len > m.from.len
             then m.to.dist <= m.from.at && Better(m.v, filtered, m.to.len, m.from.at - m.to.dist)
             else m.from.len == m.to.len == 2 && m.to.dist == 0 && NoneBetter(m.v, filtered))
       else
         && m.from.len >= MIN_MATCH && NoneBetter(m.v, filtered)
         && m.to == Plain(m.from.at + m.from.len - 1) && m.syms == [Match(m.from.len, m.from.dist)]
  }

  /** What deflate_slow does next is determined by what it sees and where it stands. */
  lemma LazyMoveIsUnique(m: Move, n: Move, filtered: bool)
    requires LazyMove(m, filtered) && LazyMove(n, filtered) && m.v == n.v && m.from == n.from
    ensures m == n
  {
    hide Better, NoneBetter, Whole;
    var at := m.from.at;
    if m.v.ahead != 0 {
      if m.to.waiting && m.to.len > m.from.len {
        BetterOrNone(m.v, filtered, m.to.len, at - m.to.dist);
        if n.to.waiting && n.to.len > n.from.len {
          BetterIsUnique(m.v, filtered, m.to.len, at - m.to.dist, n.to.len, at - n.to.dist);
        }
      }
      if n.to.waiting && n.to.len > n.from.len {
        BetterOrNone(n.v, filtered, n.to.len, at - n.to.dist);
      }
    }
  }

  /** The strings of a short match are entered, unless it ends within three bytes of the end of the input. */
  ghost function EnteredByMatch(v: Situation, len: nat): set<nat> {
    Whole(v, if len <= v.tuning.maxLazy && len + MIN_MATCH <= v.ahead then v.at + len else v.at + 1)
  }

  /** The move of deflate_fast takes this match. */
  ghost predicate Takes(m: Move, len: nat, a: nat) {
    && BestMatch(m.v, len, a) && m.to == Plain(m.v.at + len) && m.syms == [Match(len, m.v.at - a)]
    && m.after == m.v.entered + EnteredByMatch(m.v, len)
  }

  /** The move of deflate_fast: the best match if there is one, or a literal. */
  ghost predicate GreedyMove(m: Move) {
    && Sees(m) && m.v.toBeat == 2 && m.from == Plain(m.v.at) && m.v.ahead > 0
    && if NoMatch(m.v) then
         m.to == Plain(m.v.at + 1) && m.syms == [Literal(m.v.input[m.v.at])]
         && m.after == m.v.entered + Whole(m.v, m.to.at)
       else exists len: nat, a: nat :: Takes(m, len, a)
  }

  lemma GreedyMoveIsUnique(m: Move, n: Move)
    requires GreedyMove(m) && GreedyMove(n) && m.v == n.v
    ensures m == n
  {
    if !NoMatch(m.v) {
      var len: nat, a: nat :| Takes(m, len, a);
      var len': nat, a': nat :| Takes(n, len', a');
      AnswerIsUnique(m.v, len, a, len', a');
    }
  }

  /** len bytes repeat the one before, as many as there are, up to 258. */
  ghost predicate WholeRun(v: Situation, len: nat) {
    && 3 <= len <= Min(v.ahead, 258) && Repeats(v.input, v.at, 1, len)
    && (len < Min(v.ahead, 258) ==> !Repeats(v.input, v.at, 1, len + 1))
  }

  /** The move of deflate_rle: the whole run of the byte before if it is three or more, or else a literal. */
  ghost predicate RunMove(m: Move) {
    && Sees(m) && m.from == Plain(m.v.at) && m.v.ahead > 0 && m.after == {}
    && if m.v.first < m.v.at && m.v.ahead >= 3 && Repeats(m.v.input, m.v.at, 1, 3) then
         exists len: nat :: WholeRun(m.v, len) && m.to == Plain(m.v.at + len) && m.syms == [Match(len, 1)]
       else
         m.to == Plain(m.v.at + 1) && m.syms == [Literal(m.v.input[m.v.at])]
  }

  lemma RunMoveIsUnique(m: Move, n: Move)
    requires RunMove(m) && RunMove(n) && m.v == n.v
    ensures m == n
  {
    hide Repeats;
    if m.v.first < m.v.at && m.v.ahead >= 3 && Repeats(m.v.input, m.v.at, 1, 3) {
      var len: nat :| WholeRun(m.v, len) && m.to == Plain(m.v.at + len) && m.syms == [Match(len, 1)];
      var len': nat :| WholeRun(n.v, len') && n.to == Plain(n.v.at + len') && n.syms == [Match(len', 1)];
      RepeatsLess(m.v.input, m.v.at, 1, len, len');
      RepeatsLess(m.v.input, m.v.at, 1, len', len);
    }
  }

  lemma RepeatsLess(s: seq<byte>, at: nat, dist: nat, n: nat, k: nat)
    requires Repeats(s, at, dist, n)
    ensures k < n ==> Repeats(s, at, dist, k + 1)
  {
  }

  /** The move of deflate_huff: a literal. */
  ghost predicate LiteralMove(m: Move) {
    && Sees(m) && m.from == Plain(m.v.at) && m.v.ahead > 0 && m.after == {}
    && m.to == Plain(m.v.at + 1) && m.syms == [Literal(m.v.input[m.v.at])]
  }

  // ----- Runs of moves -----

  /** Each move starts where the one before it ended, and sees at least the strings that one left entered. */
  ghost predicate Path(moves: seq<Move>, from: Stand, to: Stand, entered: set<nat>) {
    if moves == [] then from == to
    else
      var last := moves[|moves| - 1];
      last.to == to && last.after <= entered && Path(moves[..|moves| - 1], from, last.from, last.v.entered)
  }

  lemma PathGrows(moves: seq<Move>, from: Stand, to: Stand, entered: set<nat>, entered': set<nat>)
    requires Path(moves, from, to, entered) && entered <= entered'
    ensures Path(moves, from, to, entered')
  {
  }

  function Symbols(moves: seq<Move>): seq<Symbol> {
    if moves == [] then [] else Symbols(moves[..|moves| - 1]) + moves[|moves| - 1].syms
  }

  lemma PathSnoc(moves: seq<Move>, from: Stand, m: Move, entered: set<nat>)
    requires Path(moves, from, m.from, m.v.entered) && m.after <= entered
    ensures Path(moves + [m], from, m.to, entered)
    ensures Symbols(moves + [m]) == Symbols(moves) + m.syms
  {
    assert (moves + [m])[..|moves|] == moves;
  }

  /** Blocks that hold these symbols, in order. */
  ghost predicate Packs(blocks: seq<Block>, syms: seq<Symbol>) {
    if blocks == [] then syms == []
    else exists k :: 0 <= k <= |syms| && MadeOf(blocks[|blocks| - 1], syms[k..]) && PacksTo(blocks, syms, k)
  }

  ghost predicate PacksTo(blocks: seq<Block>, syms: seq<Symbol>, k: nat)
    requires blocks != [] && k <= |syms|
  {
    Packs(blocks[..|blocks| - 1], syms[..k])
  }

  lemma PacksSnoc(blocks: seq<Block>, syms: seq<Symbol>, block: Block, more: seq<Symbol>)
    requires Packs(blocks, syms) && MadeOf(block, more)
    ensures Packs(blocks + [block], syms + more)
  {
    var all, k := blocks + [block], |syms|;
    assert all[..|all| - 1] == blocks && (syms + more)[..k] == syms && (syms + more)[k..] == more;
    assert PacksTo(all, syms + more, k);
  }

  /** Of these symbols the last are still tallied, and the ones before are in the blocks sent since there were n. */
  ghost predicate Poured(blocks: seq<Block>, tallied: seq<Symbol>, n: nat, syms: seq<Symbol>) {
    && n <= |blocks| && |tallied| <= |syms| && syms[|syms| - |tallied|..] == tallied
    && Packs(blocks[n..], syms[..|syms| - |tallied|])
  }

  lemma PouredStart(blocks: seq<Block>, tallied: seq<Symbol>)
    ensures Poured(blocks, tallied, |blocks|, tallied + Symbols([]))
  {
    var syms := tallied + Symbols([]);
    assert syms == tallied && syms[|syms| - |tallied|..] == syms;
  }

  lemma PouredMore(blocks: seq<Block>, tallied: seq<Symbol>, n: nat, syms: seq<Symbol>, more: seq<Symbol>,
                   blocks': seq<Block>, tallied': seq<Symbol>)
    requires Poured(blocks, tallied, n, syms) && Pours(blocks', tallied', blocks, tallied + more)
    ensures Poured(blocks', tallied', n, syms + more)
  {
    hide Packs;
    var all, front := syms + more, syms[..|syms| - |tallied|];
    assert all == front + (tallied + more);
    if blocks' == blocks && tallied' == tallied + more {
      assert all[..|all| - |tallied'|] == front;
    } else {
      var block := blocks'[|blocks|];
      assert blocks'[n..] == blocks[n..] + [block];
      PacksSnoc(blocks[n..], front, block, tallied + more);
      assert all[..|all|] == all;
    }
  }

  /** The input read so far, the strings entered before this point, the blocks sent and the symbols tallied. */
  datatype Standing = Standing(input: seq<byte>, entered: set<nat>, blocks: seq<Block>, tallied: seq<Symbol>)

  ghost function StandingOf(s: DeflateState): Standing
    requires s.Shape() && s.SymsOk()
    reads s`base, s`strStart, s`inserted, s`symNext, s`blocks, s`S, s.symBuf
  {
    Standing(s.S, Entered(s), s.blocks, s.Tallied())
  }

  /** What a move saw was this stream, so far as it had been read. */
  ghost predicate Of(s: DeflateState, input: seq<byte>, v: Situation) {
    && v.input <= input && v.tuning == s.tuning && v.hashBits == s.hashBits && v.maxDist == s.wSize - 262
    && v.first <= v.at
  }

  /**
   The moves lead from `from` to `to`, and everything tallied since there were n blocks and `syms` was tallied is
   accounted for: it is in the blocks sent since, in order, and then in sym_buf.
   */
  ghost predicate Account(s: DeflateState, moves: seq<Move>, from: Stand, to: Stand, now: Standing, n: nat,
                          syms: seq<Symbol>)
  {
    && Path(moves, from, to, now.entered) && Poured(now.blocks, now.tallied, n, syms + Symbols(moves))
    && forall i :: 0 <= i < |moves| ==> Of(s, now.input, moves[i].v)
  }

  lemma AccountStart(s: DeflateState, from: Stand, now: Standing)
    ensures Account(s, [], from, from, now, |now.blocks|, now.tallied)
  {
    hide Poured;
    PouredStart(now.blocks, now.tallied);
  }

  /** Reading more input keeps the account. */
  lemma AccountRead(s: DeflateState, moves: seq<Move>, from: Stand, to: Stand, was: Standing, now: Standing, n: nat,
                    syms: seq<Symbol>)
    requires Account(s, moves, from, to, was, n, syms)
    requires was.input <= now.input && was.entered <= now.entered
    requires now.blocks == was.blocks && now.tallied == was.tallied
    ensures Account(s, moves, from, to, now, n, syms)
  {
    hide Path, Poured, Symbols;
    PathGrows(moves, from, to, was.entered, now.entered);
  }

  /** And so does one more move. */
  lemma AccountMoved(s: DeflateState, moves: seq<Move>, from: Stand, m: Move, was: Standing, now: Standing, n: nat,
                     syms: seq<Symbol>)
    requires Account(s, moves, from, m.from, was, n, syms)
    requires m.v.entered == was.entered && m.after <= now.entered && was.input <= now.input && Of(s, now.input, m.v)
    requires Pours(now.blocks, now.tallied, was.blocks, was.tallied + m.syms)
    ensures Account(s, moves + [m], from, m.to, now, n, syms)
  {
    hide Path, Symbols, Poured, Pours;
    PathSnoc(moves, from, m, now.entered);
    PouredMore(was.blocks, was.tallied, n, syms + Symbols(moves), m.syms, now.blocks, now.tallied);
    assert syms + Symbols(moves) + m.syms == syms + (Symbols(moves) + m.syms);
  }

  /** And so does sending what has been tallied. */
  lemma AccountSent(s: DeflateState, moves: seq<Move>, from: Stand, to: Stand, was: Standing, now: Standing, n: nat,
                    syms: seq<Symbol>)
    requires Account(s, moves, from, to, was, n, syms)
    requires now.input == was.input && now.entered == was.entered
    requires Pours(now.blocks, now.tallied, was.blocks, was.tallied)
    ensures Account(s, moves, from, to, now, n, syms)
  {
    hide Path, Poured, Pours, Symbols;
    var all := syms + Symbols(moves);
    assert all + [] == all && was.tallied + [] == was.tallied;
    PouredMore(was.blocks, was.tallied, n, all, [], now.blocks, now.tallied);
  }

  /** The moves have led to where the function stands now. */
  ghost predicate Run(s: DeflateState, moves: seq<Move>, from: Stand, to: Stand, n: nat, syms: seq<Symbol>)
    reads s`base, s`strStart, s`inserted, s`symNext, s`blocks, s`S, s.symBuf
  {
    s.Shape() && s.SymsOk() && Account(s, moves, from, to, StandingOf(s), n, syms)
  }

  lemma RunStart(s: DeflateState, from: Stand)
    requires s.Shape() && s.SymsOk()
    ensures Run(s, [], from, from, |s.blocks|, s.Tallied())
  {
    hide Account;
    AccountStart(s, from, StandingOf(s));
  }

  lemma OfSituation(s: DeflateState, toBeat: nat)
    ensures Of(s, s.S, SituationOf(s, toBeat)) && SituationOf(s, toBeat).entered == Entered(s)
  {
  }
}

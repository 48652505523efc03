/** deflate_fast: greedy matching. */
module Fast {
  import opened Basics
  import opened Lz77
  import opened RollingHash
  import opened HashChains
  import opened Blocks
  import opened Memory
  import opened DeflateStates
  import opened Window
  import opened Matching
  import opened Longest
  import opened Parses
  import opened Stepping
  import opened Flushing

  /** What deflate_fast keeps from step to step, and from call to call. */
  ghost predicate FastInv(s: DeflateState)
    reads s`base, s`strStart, s`matchStart, s`blockStart, s`insert, s`insH, s`inserted, s`prevLength
    reads s`totalIn, s`check, s`S, s`lookahead, s`highWater, s`written, s`matchLength, s`matchAvailable
    reads s`symNext, s`header, s`blocks, s`restart, s.window, s.head, s.prev, s.symBuf, s.out
  {
    && s.Shape() && s.tuning.maxChain >= 4
    && s.Ready() && s.SymsOk() && s.symNext < s.SymEnd()
    && s.matchLength < MIN_MATCH && s.prevLength == MIN_MATCH - 1
    && s.Lossless(s.base + s.strStart) && s.Sent() && Open(s.blocks)
  }

  method FillFast(s: DeflateState)
    requires FastInv(s) && s.out.Idle() && s.lookahead < MIN_LOOKAHEAD
    modifies s`base, s`strStart, s`matchStart, s`blockStart, s`insert, s`insH, s`inserted
    modifies s`nextIn, s`totalIn, s`check, s`S, s`lookahead, s`highWater, s`written
    modifies s.window, s.head, s.prev
    ensures FastInv(s) && s.out.Idle()
    ensures old(s.S) <= s.S && s.S + s.nextIn == old(s.S + s.nextIn)
    ensures s.lookahead + |s.nextIn| == old(s.lookahead + |s.nextIn|)
    ensures s.strStart <= 2 * s.wSize - MIN_LOOKAHEAD
    ensures s.lookahead >= MIN_LOOKAHEAD || s.nextIn == []
    ensures s.base + s.blockStart == old(s.base + s.blockStart)
    ensures s.base + s.strStart == old(s.base + s.strStart) && old(s.inserted) <= s.inserted
    ensures s.SymsOk() && s.Tallied() == old(s.Tallied())
  {
    hide HashAt, PrimedAt, Inv, Pow2, Carries, Sub32, Unpack, Encode;
    hide DeflateState.ChainsOk, DeflateState.CheckOk, DeflateState.Sent, DeflateState.WindowOk, DeflateState.KeyOk;
    FillWindow(s);
    CarriesGrows(s.MaxDist(), old(s.S), s.S, s.restart, s.base + s.blockStart, s.blocks, s.Tallied(),
                 s.base + s.strStart);
  }

  /** The state after the string at strstart has been inserted and its match looked for. */
  ghost predicate Probed(s: DeflateState)
    reads s, s.window, s.head, s.prev, s.symBuf, s.out
  {
    && s.Shape() && s.tuning.maxChain >= 4
    && Poised(s) && s.SymsOk() && s.symNext < s.SymEnd() && s.prevLength == MIN_MATCH - 1
    && s.Lossless(s.base + s.strStart) && s.Sent() && Open(s.blocks) && s.out.Idle()
    && s.matchLength <= MAX_MATCH
    && (s.matchLength >= MIN_MATCH ==>
          s.matchLength <= s.lookahead && s.matchStart < s.strStart && s.strStart - s.matchStart <= s.MaxDist()
          && Repeats(s.S, s.base + s.strStart, s.strStart - s.matchStart, s.matchLength))
  }

  /** Looks for a match at strstart, unless there is nothing to be found. */
  method Look(s: DeflateState, hashHead: nat)
    requires s.Shape() && s.WindowOk() && s.HighWaterOk() && s.tuning.maxChain >= 4
    requires s.strStart <= 2 * s.wSize - MIN_LOOKAHEAD && s.prevLength == MIN_MATCH - 1 && s.matchLength < MIN_MATCH
    requires s.lookahead >= MIN_MATCH ==> IsHead(s, hashHead)
    requires hashHead != 0 ==> s.lookahead >= MIN_MATCH && hashHead < s.strStart
    requires hashHead != 0 && s.strStart - hashHead <= s.MaxDist() ==>
               s.ChainsOk(s.strStart + 1) && OnChain(s, hashHead)
    modifies s`matchStart, s`matchLength
    ensures s.matchLength <= MAX_MATCH
    ensures s.matchLength >= MIN_MATCH ==>
      && s.matchLength <= s.lookahead && s.matchStart < s.strStart && s.strStart - s.matchStart <= s.MaxDist()
      && Repeats(s.S, s.base + s.strStart, s.strStart - s.matchStart, s.matchLength)
    ensures Greedy(SituationOf(s, MIN_MATCH - 1), s.matchLength, s.base + s.matchStart)
  {
    hide OnChain, Searchable, PlainSearch, Repeats, BestMatch, NoMatch, IsHead, SituationOf;
    hide DeflateState.ChainsOk, DeflateState.WindowOk, DeflateState.HighWaterOk, DeflateState.Shape;
    SituationFields(s, MIN_MATCH - 1);
    if hashHead != 0 && s.strStart - hashHead <= s.MaxDist() {
      HeadIsSearchable(s, hashHead);
      s.matchLength := LongestMatch(s, hashHead);
    } else {
      NothingInSight(s, hashHead, MIN_MATCH - 1);
    }
  }

  method Probe(s: DeflateState)
    requires FastInv(s) && s.out.Idle() && s.lookahead > 0 && s.strStart <= 2 * s.wSize - MIN_LOOKAHEAD
    modifies s`insH, s`inserted, s`matchStart, s`matchLength, s.head, s.prev
    ensures Probed(s)
    ensures Greedy(old(SituationOf(s, MIN_MATCH - 1)), s.matchLength, s.base + s.matchStart)
    ensures s.inserted == old(s.inserted) + (if s.lookahead >= MIN_MATCH then {s.base + s.strStart} else {})
  {
    hide HashAt, PrimedAt, Inv, Pow2, Carries, Unpack, Encode, Repeats, OnChain, Advanced, IsHead, Greedy;
    hide DeflateState.ChainsOk, DeflateState.CheckOk, DeflateState.Sent, DeflateState.WindowOk, DeflateState.KeyOk;
    ghost var v := SituationOf(s, MIN_MATCH - 1);
    var hashHead := InsertCurrent(s);
    SameSituation(s, old(s.inserted), v);
    Look(s, hashHead);
  }

  /** What deflate_fast finds at a position: the best match, or a length below three if there is none. */
  ghost predicate Greedy(v: Situation, len: nat, a: nat) {
    if len >= MIN_MATCH then BestMatch(v, len, a) else NoMatch(v)
  }

  /** Inserts every string of a short match; there are always MIN_MATCH bytes ahead. */
  method InsertShortMatch(s: DeflateState, ghost live: nat)
    requires s.Shape() && s.Holds(live)
    requires s.matchLength >= 2 && s.strStart + s.matchLength + MIN_MATCH <= live
    requires s.ChainsOk(s.strStart + 1) && PrimedAt(s.hashBits, s.insH, s.S, s.base + s.strStart + 1)
    modifies s`strStart, s`matchLength, s`insH, s`inserted, s.head, s.prev
    ensures s.matchLength == 0 && s.strStart == old(s.strStart + s.matchLength)
    ensures forall a :: a in s.inserted <==>
      a in old(s.inserted) || s.base + old(s.strStart) < a < s.base + s.strStart
    ensures s.ChainsOk(s.strStart) && PrimedAt(s.hashBits, s.insH, s.S, s.base + s.strStart)
  {
    hide HashAt, PrimedAt, Inv, Pow2;
    s.matchLength := s.matchLength - 1;
    while true
      invariant s.matchLength >= 1 && s.strStart + s.matchLength + 1 == old(s.strStart + s.matchLength)
      invariant s.ChainsOk(s.strStart + 1) && PrimedAt(s.hashBits, s.insH, s.S, s.base + s.strStart + 1)
      invariant forall a :: a in s.inserted <==>
        a in old(s.inserted) || s.base + old(s.strStart) < a <= s.base + s.strStart
      decreases s.matchLength
    {
      s.strStart := s.strStart + 1;
      var _ := s.InsertString(s.strStart, s.strStart, live);
      s.matchLength := s.matchLength - 1;
      if s.matchLength == 0 { break; }
    }
    s.strStart := s.strStart + 1;
  }

  /** Skips a long match without inserting its strings, and restarts the key after it. */
  method SkipLongMatch(s: DeflateState, ghost live: nat)
    requires s.Shape() && s.Holds(live) && s.strStart + s.matchLength + s.lookahead == live
    requires s.Initialised(s.strStart + s.matchLength + 2) && s.insert <= s.strStart && s.matchLength >= 1
    requires s.ChainsOk(s.strStart + 1 - s.insert)
    modifies s`strStart, s`matchLength, s`insH
    ensures s.matchLength == 0 && s.strStart == old(s.strStart + s.matchLength)
    ensures s.ChainsOk(s.strStart - s.insert) && s.KeyOk()
  {
    hide HashAt, PrimedAt, Inv, Pow2, UpdateHash;
    SkipKeeps(s.hashBits, s.wSize, s.S, s.base, s.inserted, s.strStart + 1 - s.insert,
              s.strStart + s.matchLength - s.insert, s.head[..], s.prev[..]);
    s.strStart := s.strStart + s.matchLength;
    s.matchLength := 0;
    s.insH := UpdateHash(s.hashBits, Fetch(s.window, s.strStart, s.written) as bv32,
                         Fetch(s.window, s.strStart + 1, s.written));
    if s.lookahead >= MIN_MATCH {
      ghost var bytes := s.window[..live];
      assert bytes[s.strStart] == s.S[s.base..][s.strStart] && bytes[s.strStart + 1] == s.S[s.base..][s.strStart + 1];
      FirstTwoBytesPrime(s.hashBits, s.S, s.base + s.strStart);
    }
  }

  /** Moves past the match, inserting its strings if it is short. */
  method PassMatch(s: DeflateState)
    requires s.Shape() && Poised(s) && s.strStart <= 2 * s.wSize - MIN_LOOKAHEAD
    requires MIN_MATCH <= s.matchLength <= MAX_MATCH && s.matchLength <= s.lookahead
    modifies s`strStart, s`lookahead, s`matchLength, s`insH, s`inserted, s.head, s.prev
    ensures s.Ready() && s.matchLength == 0
    ensures s.strStart == old(s.strStart + s.matchLength) && s.lookahead == old(s.lookahead - s.matchLength)
    ensures forall a :: a in s.inserted <==>
      || a in old(s.inserted)
      || (old(s.matchLength) <= s.tuning.maxLazy && s.lookahead >= MIN_MATCH
          && s.base + old(s.strStart) < a < s.base + s.strStart)
  {
    hide HashAt, PrimedAt, Inv, Pow2, DeflateState.ChainsOk, DeflateState.CheckOk, DeflateState.Shape;
    s.Sizes();
    ghost var live := s.strStart + s.lookahead;
    assert s.Initialised(s.strStart + s.matchLength + 2);
    s.lookahead := s.lookahead - s.matchLength;
    if s.matchLength <= s.tuning.maxLazy && s.lookahead >= MIN_MATCH {
      InsertShortMatch(s, live);
    } else {
      SkipLongMatch(s, live);
    }
  }

  /** Tallies the match and moves to its end. */
  method EmitMatch(s: DeflateState) returns (full: bool)
    requires Probed(s) && s.matchLength >= MIN_MATCH && s.strStart <= 2 * s.wSize - MIN_LOOKAHEAD
    modifies s`strStart, s`lookahead, s`matchLength, s`insH, s`inserted, s`symNext, s.symBuf, s.head, s.prev
    ensures s.Ready()
    ensures s.matchLength == 0 && s.lookahead < old(s.lookahead) && s.strStart == old(s.strStart + s.matchLength)
    ensures s.SymsOk() && s.Tallied() == old(s.Tallied() + [Match(s.matchLength, s.strStart - s.matchStart)])
    ensures forall a :: a in s.inserted <==>
      || a in old(s.inserted)
      || (old(s.matchLength) <= s.tuning.maxLazy && old(s.lookahead - s.matchLength) >= MIN_MATCH
          && s.base + old(s.strStart) < a < s.base + s.strStart)
    ensures s.symNext == old(s.symNext) + 3 && full == (s.symNext == s.SymEnd()) && s.Lossless(s.base + s.strStart)
  {
    hide Carries, Unpack, Repeats, Open, Poised, DeflateState.Ready, DeflateState.Sent, DeflateState.Shape;
    s.Sizes();
    full := s.TallyDist(s.strStart - s.matchStart, s.matchLength - MIN_MATCH, s.base + s.strStart);
    PassMatch(s);
  }

  /** Tallies the byte at strstart and moves past it. */
  method EmitByte(s: DeflateState) returns (full: bool)
    requires Probed(s)
    modifies s`strStart, s`lookahead, s`symNext, s.symBuf
    ensures s.Ready()
    ensures s.lookahead < old(s.lookahead) && s.strStart == old(s.strStart) + 1
    ensures s.SymsOk() && s.Tallied() == old(s.Tallied() + [Literal(s.S[s.base + s.strStart])])
    ensures s.symNext == old(s.symNext) + 3 && full == (s.symNext == s.SymEnd()) && s.Lossless(s.base + s.strStart)
  {
    hide HashAt, PrimedAt, Inv, Pow2, Carries, Unpack, Encode, Repeats, Open, Advanced;
    hide DeflateState.ChainsOk, DeflateState.CheckOk, DeflateState.Sent, DeflateState.WindowOk, DeflateState.KeyOk;
    hide Poised, DeflateState.Ready;
    PoisedBounds(s);
    full := EmitLiteral(s, s.strStart);
    Advance(s);
  }

  /** Takes the match at strstart if there is one, and the byte there if not. */
  method Take(s: DeflateState) returns (full: bool, ghost len: nat, ghost a: nat)
    requires FastInv(s) && s.out.Idle() && s.lookahead > 0 && s.strStart <= 2 * s.wSize - MIN_LOOKAHEAD
    modifies s`strStart, s`lookahead, s`matchLength, s`matchStart
    modifies s`insH, s`inserted, s`symNext, s.symBuf, s.head, s.prev
    ensures s.Ready() && s.matchLength < MIN_MATCH && s.lookahead < old(s.lookahead) && len <= MAX_MATCH
    ensures Greedy(old(SituationOf(s, MIN_MATCH - 1)), len, a)
    ensures s.strStart == old(s.strStart) + (if len >= MIN_MATCH then len else 1)
    ensures len >= MIN_MATCH ==> a < s.base + old(s.strStart)
    ensures s.SymsOk() && s.Tallied() == old(s.Tallied()) +
      [if len >= MIN_MATCH then Match(len, s.base + old(s.strStart) - a) else Literal(old(s.S[s.base + s.strStart]))]
    ensures s.symNext == old(s.symNext) + 3 && full == (s.symNext == s.SymEnd()) && s.Lossless(s.base + s.strStart)
    ensures forall x :: x in s.inserted <==>
      || x in old(s.inserted)
      || (x == s.base + old(s.strStart) && old(s.lookahead) >= MIN_MATCH)
      || (MIN_MATCH <= len <= s.tuning.maxLazy && old(s.lookahead) >= len + MIN_MATCH
          && s.base + old(s.strStart) < x < s.base + s.strStart)
  {
    hide Carries, Unpack, Repeats, Poised, Greedy, SituationOf, DeflateState.Ready, DeflateState.Sent;
    hide DeflateState.WindowOk, DeflateState.Shape;
    s.Sizes();
    ghost var syms := s.Tallied();
    Probe(s);
    assert s.Tallied() == syms;
    len, a := s.matchLength, s.base + s.matchStart;
    if s.matchLength >= MIN_MATCH {
      full := EmitMatch(s);
    } else {
      full := EmitByte(s);
    }
  }

  /** The body of a step: a match or a literal, and the block when the buffer is full. */
  method Act(s: DeflateState) returns (stop: bool, ghost len: nat, ghost a: nat)
    requires FastInv(s) && s.out.Idle() && s.lookahead > 0 && s.strStart <= 2 * s.wSize - MIN_LOOKAHEAD
    modifies s`strStart, s`lookahead, s`matchLength, s`matchStart
    modifies s`insH, s`inserted, s`symNext, s`blocks, s`blockStart, s.symBuf, s.head, s.prev, s.out
    ensures FastInv(s) && s.lookahead < old(s.lookahead)
    ensures Greedy(old(SituationOf(s, MIN_MATCH - 1)), len, a)
    ensures s.strStart == old(s.strStart) + (if len >= MIN_MATCH then len else 1)
    ensures len >= MIN_MATCH ==> a < s.base + old(s.strStart)
    ensures s.blocks != old(s.blocks) <==> old(s.symNext) + 3 == 3 * (s.litBufsize - 1)
    ensures Pours(s.blocks, s.Tallied(), old(s.blocks), old(s.Tallied()) +
      [if len >= MIN_MATCH then Match(len, s.base + old(s.strStart) - a) else Literal(old(s.S[s.base + s.strStart]))])
    ensures forall x :: x in s.inserted <==>
      || x in old(s.inserted)
      || (x == s.base + old(s.strStart) && old(s.lookahead) >= MIN_MATCH)
      || (MIN_MATCH <= len <= s.tuning.maxLazy && old(s.lookahead) >= len + MIN_MATCH
          && s.base + old(s.strStart) < x < s.base + s.strStart)
    ensures if stop then s.out.Full() else s.out.Idle()
    ensures Quiet(s, old(s.base + s.blockStart), old(s.out.availOut), old(s.out.bits))
    ensures s.out.availOut <= old(s.out.availOut) && s.out.Room() == old(s.out.Room())
  {
    hide Carries, Unpack, Greedy, SituationOf, DeflateState.Ready, DeflateState.Sent, DeflateState.WindowOk;
    hide DeflateState.Shape;
    s.Sizes();
    var full;
    full, len, a := Take(s);
    ReadyWindow(s);
    if full {
      FlushBlockOnly(s, false);
    }
    stop := full && s.out.availOut == 0;
  }

  lemma IsGreedy(v: Situation, len: nat, a: nat)
    requires Greedy(v, len, a) && v.toBeat == 2 && v.at + v.ahead == |v.input| && v.ahead > 0
    ensures len >= MIN_MATCH ==> a < v.at
    ensures var m := if len >= MIN_MATCH
        then Move(v, Plain(v.at), Plain(v.at + len), [Match(len, v.at - a)], v.entered + EnteredByMatch(v, len))
        else Move(v, Plain(v.at), Plain(v.at + 1), [Literal(v.input[v.at])], v.entered + Whole(v, v.at + 1));
      GreedyMove(m)
  {
    hide Whole, EnteredByMatch, NoMatch, BestMatch;
    if len >= MIN_MATCH {
      IsVisible(v, len, a);
      AnswerIsUnique(v, len, a, len, a);
      var m := Move(v, Plain(v.at), Plain(v.at + len), [Match(len, v.at - a)], v.entered + EnteredByMatch(v, len));
      assert Takes(m, len, a);
    }
  }

  lemma IsVisible(v: Situation, len: nat, a: nat)
    requires BestMatch(v, len, a)
    ensures a < v.at
  {
  }

  lemma FastSituation(s: DeflateState)
    requires FastInv(s)
    ensures s.Shape() && s.WindowOk() && s.SymsOk()
  {
  }

  lemma AfterIsEntered(s: DeflateState, v: Situation, before: set<nat>, len: nat)
    requires v.entered <= before && (forall x :: x in v.entered ==> x < v.at) && v.at + v.ahead == |v.input|
    requires v.tuning == s.tuning && s.base + s.strStart == v.at + (if len >= MIN_MATCH then len else 1)
    requires forall x :: x in s.inserted <==>
      || x in before
      || (x == v.at && v.ahead >= MIN_MATCH)
      || (MIN_MATCH <= len <= s.tuning.maxLazy && v.ahead >= len + MIN_MATCH && v.at < x < s.base + s.strStart)
    ensures v.entered + (if len >= MIN_MATCH then EnteredByMatch(v, len) else Whole(v, v.at + 1)) <= Entered(s)
  {
  }

  /** One step of deflate_fast on a window with something ahead, a greedy move; `stop` when the output is full. */
  method Step(s: DeflateState) returns (stop: bool, ghost m: Move)
    requires FastInv(s) && s.out.Idle() && s.lookahead > 0 && s.strStart <= 2 * s.wSize - MIN_LOOKAHEAD
    modifies s`strStart, s`lookahead, s`matchLength, s`matchStart
    modifies s`insH, s`inserted, s`symNext, s`blocks, s`blockStart, s.symBuf, s.head, s.prev, s.out
    ensures FastInv(s) && s.lookahead < old(s.lookahead)
    ensures GreedyMove(m) && m.v == old(SituationOf(s, 2))
    ensures m.from == Plain(old(s.base + s.strStart)) && m.to == Plain(s.base + s.strStart) && m.after <= Entered(s)
    ensures s.SymsOk() && Pours(s.blocks, s.Tallied(), old(s.blocks), old(s.Tallied()) + m.syms)
    ensures Sized(s, old(s.blocks), old(|s.Tallied()|), |m.syms|)
    ensures if stop then s.out.Full() else s.out.Idle()
    ensures Quiet(s, old(s.base + s.blockStart), old(s.out.availOut), old(s.out.bits))
    ensures s.out.availOut <= old(s.out.availOut) && s.out.Room() == old(s.out.Room())
  {
    hide FastInv, Greedy, GreedyMove, SituationOf, Pours, Unpack, Entered, Whole, EnteredByMatch, Quiet;
    hide DeflateState.Shape, DeflateState.SymsOk;
    FastSituation(s);
    SituationIs(s, 2);
    ghost var v := SituationOf(s, 2);
    ghost var len, a;
    TalliedLength(s);
    stop, len, a := Act(s);
    FastSituation(s);
    IsGreedy(v, len, a);
    AfterIsEntered(s, v, old(s.inserted), len);
    m := if len >= MIN_MATCH
         then Move(v, Plain(v.at), Plain(v.at + len), [Match(len, v.at - a)], v.entered + EnteredByMatch(v, len))
         else Move(v, Plain(v.at), Plain(v.at + 1), [Literal(v.input[v.at])], v.entered + Whole(v, v.at + 1));
  }

  lemma ReadyWindow(s: DeflateState)
    requires s.Shape() && s.Ready()
    ensures s.WindowOk()
  {
  }

  method Wrapup(s: DeflateState, flush: Flush) returns (r: BlockState)
    requires FastInv(s) && s.out.Idle() && s.nextIn == [] && s.lookahead == 0
    requires s.strStart <= 2 * s.wSize - MIN_LOOKAHEAD
    modifies s`insert, s`symNext, s`blocks, s`blockStart, s.out
    ensures match r
      case NeedMore => FastInv(s) && s.out.Full()
      case BlockDone => FastInv(s) && s.out.Idle() && Drained(s)
      case FinishStarted => Ended(s) && s.out.Full()
      case FinishDone => Ended(s) && s.out.Idle() && s.out.availOut > 0
    ensures s.SymsOk() && Pours(s.blocks, s.Tallied(), old(s.blocks), old(s.Tallied()))
    ensures s.insert == Min(s.strStart, 2)
    ensures flush.Finish? <==> r.FinishStarted? || r.FinishDone?
    ensures !flush.Finish? ==> Quiet(s, old(s.base + s.blockStart), old(s.out.availOut), old(s.out.bits))
    ensures s.out.availOut <= old(s.out.availOut) && s.out.Room() == old(s.out.Room())
  {
    hide HashAt, PrimedAt, Inv, Pow2, Carries, Unpack, Encode, DecodesTo, Ended, Open;
    hide DeflateState.CheckOk, DeflateState.Sent;
    s.insert := if s.strStart < MIN_MATCH - 1 then s.strStart else MIN_MATCH - 1;
    LastTwoNotInserted(s.hashBits, s.wSize, s.S, s.base, s.inserted, s.strStart - old(s.insert), s.strStart - s.insert,
                       s.head[..], s.prev[..]);
    r := FlushTail(s, flush);
  }

  lemma RoomAhead(s: DeflateState)
    requires FastInv(s)
    ensures s.lookahead >= MIN_LOOKAHEAD ==> s.strStart <= 2 * s.wSize - MIN_LOOKAHEAD
  {
    hide Inv;
  }

  ghost predicate AllGreedy(moves: seq<Move>) {
    forall i :: 0 <= i < |moves| ==> GreedyMove(moves[i])
  }

  lemma NoMoves()
    ensures AllGreedy([])
  {
  }

  /** fill_window, with the account of the moves. */
  method FillAccounted(s: DeflateState, ghost moves: seq<Move>, ghost from: Stand, ghost n: nat,
                       ghost syms: seq<Symbol>)
    requires FastInv(s) && s.out.Idle() && s.lookahead < MIN_LOOKAHEAD
    requires Run(s, moves, from, Plain(s.base + s.strStart), n, syms)
    modifies s`base, s`strStart, s`matchStart, s`blockStart, s`insert, s`insH, s`inserted
    modifies s`nextIn, s`totalIn, s`check, s`S, s`lookahead, s`highWater, s`written
    modifies s.window, s.head, s.prev
    ensures FastInv(s) && s.out.Idle() && Run(s, moves, from, Plain(s.base + s.strStart), n, syms)
    ensures old(s.S) <= s.S && s.S + s.nextIn == old(s.S + s.nextIn)
    ensures s.strStart <= 2 * s.wSize - MIN_LOOKAHEAD
    ensures s.lookahead >= MIN_LOOKAHEAD || s.nextIn == []
    ensures s.base + s.blockStart == old(s.base + s.blockStart)
    ensures s.lookahead + |s.nextIn| == old(s.lookahead + |s.nextIn|)
  {
    hide FastInv, Account, Unpack;
    ghost var was := StandingOf(s);
    FillFast(s);
    FastSituation(s);
    AccountRead(s, moves, from, Plain(s.base + s.strStart), was, StandingOf(s), n, syms);
  }

  /** One step, with the account of the moves. */
  method StepAccounted(s: DeflateState, ghost moves: seq<Move>, ghost from: Stand, ghost n: nat,
                       ghost syms: seq<Symbol>)
    returns (stop: bool, ghost moves': seq<Move>)
    requires FastInv(s) && s.out.Idle() && s.lookahead > 0 && s.strStart <= 2 * s.wSize - MIN_LOOKAHEAD
    requires AllGreedy(moves) && Run(s, moves, from, Plain(s.base + s.strStart), n, syms)
    modifies s`strStart, s`lookahead, s`matchLength, s`matchStart
    modifies s`insH, s`inserted, s`symNext, s`blocks, s`blockStart, s.symBuf, s.head, s.prev, s.out
    ensures FastInv(s) && s.lookahead < old(s.lookahead)
    ensures AllGreedy(moves') && Run(s, moves', from, Plain(s.base + s.strStart), n, syms)
    ensures if stop then s.out.Full() else s.out.Idle()
    ensures Quiet(s, old(s.base + s.blockStart), old(s.out.availOut), old(s.out.bits))
    ensures s.out.availOut <= old(s.out.availOut) && s.out.Room() == old(s.out.Room())
  {
    hide FastInv, Account, Quiet, GreedyMove, Pours, SituationOf, Entered, Unpack;
    OfSituation(s, 2);
    ghost var was := StandingOf(s);
    ghost var m;
    stop, m := Step(s);
    FastSituation(s);
    AccountMoved(s, moves, from, m, was, StandingOf(s), n, syms);
    moves' := moves + [m];
  }

  /** The end of a call, with the account of the moves. */
  method WrapupAccounted(s: DeflateState, flush: Flush, ghost moves: seq<Move>, ghost from: Stand, ghost n: nat,
                         ghost syms: seq<Symbol>)
    returns (r: BlockState)
    requires FastInv(s) && s.out.Idle() && s.nextIn == [] && s.lookahead == 0
    requires s.strStart <= 2 * s.wSize - MIN_LOOKAHEAD
    requires Run(s, moves, from, Plain(s.base + s.strStart), n, syms)
    modifies s`insert, s`symNext, s`blocks, s`blockStart, s.out
    ensures Run(s, moves, from, Plain(s.base + s.strStart), n, syms) && s.insert == Min(s.strStart, 2)
    ensures match r
      case NeedMore => FastInv(s) && s.out.Full()
      case BlockDone => FastInv(s) && s.out.Idle() && Drained(s)
      case FinishStarted => Ended(s) && s.out.Full()
      case FinishDone => Ended(s) && s.out.Idle() && s.out.availOut > 0
    ensures flush.Finish? <==> r.FinishStarted? || r.FinishDone?
    ensures !flush.Finish? ==> Quiet(s, old(s.base + s.blockStart), old(s.out.availOut), old(s.out.bits))
    ensures s.out.availOut <= old(s.out.availOut) && s.out.Room() == old(s.out.Room())
  {
    hide FastInv, Account, Ended, Drained, Quiet, Pours, Unpack;
    ghost var was := StandingOf(s);
    r := Wrapup(s, flush);
    AccountSent(s, moves, from, Plain(s.base + s.strStart), was, StandingOf(s), n, syms);
  }

  /** deflate_fast: the greedy parse of the input, move by move, and the blocks it goes out in. */
  method DeflateFast(s: DeflateState, flush: Flush) returns (r: BlockState, ghost moves: seq<Move>)
    requires FastInv(s) && s.out.Idle()
    modifies s`base, s`strStart, s`matchStart, s`blockStart, s`insert, s`insH, s`inserted, s`prevLength, s`prevMatch
    modifies s`nextIn, s`totalIn, s`check, s`S, s`lookahead, s`highWater, s`written, s`matchLength, s`matchAvailable
    modifies s`symNext, s`blocks, s.window, s.head, s.prev, s.symBuf, s.out
    ensures s.S + s.nextIn == old(s.S + s.nextIn) && old(s.S) <= s.S
    ensures AllGreedy(moves)
    ensures Run(s, moves, Plain(old(s.base + s.strStart)), Plain(s.base + s.strStart), old(|s.blocks|),
                old(s.Tallied()))
    ensures match r
      case NeedMore => FastInv(s) && Paused(s, flush)
      case BlockDone =>
        FastInv(s) && s.out.Idle() && Drained(s) && !flush.NoFlush? && !flush.Finish? && s.insert == Min(s.strStart, 2)
      case FinishStarted => Ended(s) && s.out.Full() && flush.Finish?
      case FinishDone => Ended(s) && s.out.Idle() && s.out.availOut > 0 && flush.Finish?
    ensures r.NeedMore? || r.BlockDone? ==>
              Quiet(s, old(s.base + s.blockStart), old(s.out.availOut), old(s.out.bits))
    ensures s.out.availOut <= old(s.out.availOut) && s.out.Room() == old(s.out.Room())
  {
    hide Ended, Drained, FastInv, Run, AllGreedy, Unpack, DeflateState.Shape, DeflateState.SymsOk;
    FastSituation(s);
    moves := [];
    ghost var from, n, syms := Plain(s.base + s.strStart), |s.blocks|, s.Tallied();
    RunStart(s, from);
    NoMoves();
    while true
      invariant FastInv(s) && s.out.Idle() && s.out.availOut <= old(s.out.availOut)
      invariant s.out.Room() == old(s.out.Room())
      invariant Quiet(s, old(s.base + s.blockStart), old(s.out.availOut), old(s.out.bits))
      invariant s.S + s.nextIn == old(s.S + s.nextIn) && old(s.S) <= s.S
      invariant AllGreedy(moves) && Run(s, moves, from, Plain(s.base + s.strStart), n, syms)
      decreases |s.nextIn| + s.lookahead
    {
      if s.lookahead < MIN_LOOKAHEAD {
        FillAccounted(s, moves, from, n, syms);
        if s.lookahead < MIN_LOOKAHEAD && flush.NoFlush? { return NeedMore, moves; }
        if s.lookahead == 0 { break; }
      }
      RoomAhead(s);
      var stop;
      stop, moves := StepAccounted(s, moves, from, n, syms);
      if stop { return NeedMore, moves; }
    }
    r := WrapupAccounted(s, flush, moves, from, n, syms);
  }
}

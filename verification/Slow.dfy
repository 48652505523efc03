/** deflate_slow: lazy matching. */
module Slow {
  import opened Basics
  import opened Lz77
  import opened RollingHash
  import opened HashChains
  import opened Blocks
  import opened Checks
  import opened DeflateStates
  import opened Window
  import opened Matching
  import opened Longest
  import opened Parses
  import opened Stepping
  import opened Flushing

  const TOO_FAR: nat := 4096

  /** The distance of a match at stream window index `at`, in the unsigned arithmetic of the C code. */
  ghost predicate MatchAt(s: DeflateState, at: int, start: uint32, len: nat)
    reads s`S, s`base, s`restart
  {
    && 0 <= at && MIN_MATCH <= len <= MAX_MATCH
    && 1 <= Sub32(at, start) <= s.MaxDist() && s.restart.at + Sub32(at, start) <= s.base + at
    && Repeats(s.S, s.base + at, Sub32(at, start), len)
  }

  /** What has been deferred: a byte at strstart - 1, perhaps with a match that starts there. */
  ghost predicate DeferredOk(s: DeflateState)
    reads s`S, s`base, s`restart, s`matchLength, s`matchStart, s`matchAvailable, s`strStart, s`lookahead
  {
    && (s.matchAvailable ==> s.strStart >= 1)
    && s.matchLength >= 2
    && (s.matchLength >= MIN_MATCH ==>
          s.matchAvailable && s.matchLength <= s.lookahead + 1
          && MatchAt(s, s.strStart - 1, s.matchStart, s.matchLength))
  }

  /** The stream position up to which symbols have been tallied. */
  ghost function Tally(s: DeflateState): int
    reads s`base, s`strStart, s`matchAvailable
  {
    s.base + s.strStart - (if s.matchAvailable then 1 else 0)
  }

  lemma NearIsSub32(a: nat, b: nat)
    requires b <= a < UINT32
    ensures Sub32(a, b) == a - b
  {
  }

  /** A match not worth its symbol: short ones under Z_FILTERED, and the shortest from far away. */
  predicate Poor(s: DeflateState, best: nat, start: nat)
    reads s`strStart, s`lookahead
  {
    var len := Min(best, s.lookahead);
    len <= 5 && (s.strategy.Filtered? || (len == MIN_MATCH && Sub32(s.strStart, start) > TOO_FAR))
  }

  /** What a search in this window leaves in match_length and match_start, with poor matches discarded. */
  ghost function Found(s: DeflateState, win: seq<byte>, hashHead: nat, pos: nat): (nat, nat)
    requires Searchable(s, hashHead) && |win| == s.window.Length && s.tuning.maxChain >= 4
    reads s`strStart, s`S, s`base, s`inserted, s`lookahead, s`prevLength, s.head, s.prev
  {
    var (best, at) :=
      Best(win, s.strStart, Candidates(s, hashHead, ChainLength(s)), s.prevLength, pos, NiceLength(s));
    (if Poor(s, best, at) then 2 else Min(best, s.lookahead), at)
  }

  /** Looks for a match at strstart that beats prev_length, and discards poor ones. */
  method FindMatch(s: DeflateState, hashHead: nat)
    requires Searchable(s, hashHead) && s.WindowOk() && s.HighWaterOk() && s.tuning.maxChain >= 4
    requires 2 <= s.prevLength <= MAX_MATCH && s.restart.at <= s.base
    requires IsHead(s, hashHead) && s.prevLength < s.tuning.maxLazy
    modifies s`matchStart, s`matchLength
    ensures Settled(SituationOf(s, s.prevLength), s.strategy.Filtered?, s.matchLength, s.base + s.matchStart)
    ensures 2 <= s.matchLength <= MAX_MATCH
    ensures s.matchLength > s.prevLength ==>
              s.matchLength <= s.lookahead && MatchAt(s, s.strStart, s.matchStart, s.matchLength)
    ensures (s.matchLength, s.matchStart as nat) == old(Found(s, s.window[..], hashHead, s.matchStart))
  {
    hide Sub32, Best, Candidates, Repeats, Searchable, IsHead, BestMatch, NoMatch;
    hide DeflateState.WindowOk, DeflateState.HighWaterOk, DeflateState.Shape;
    SearchableBounds(s, hashHead);
    s.matchLength := LongestMatch(s, hashHead);
    if s.matchLength > s.prevLength {
      NearIsSub32(s.strStart, s.matchStart);
    }
    ghost var v, len, a := SituationOf(s, s.prevLength), s.matchLength, s.base + s.matchStart;
    assert len > v.toBeat ==> BestMatch(v, len, a) && v.at - a == Sub32(s.strStart, s.matchStart);
    if s.matchLength <= 5 &&
       (s.strategy.Filtered? ||
        (s.matchLength == MIN_MATCH && Sub32(s.strStart, s.matchStart) > TOO_FAR)) {
      s.matchLength := MIN_MATCH - 1;
    }
  }

  /**
   The lazy decision comes from the input alone.  If bytes beyond the input were different (win'), either the
   waiting match is adopted in both cases, or the new match is the same, with the same start if it is one.
   The start left over from a step without a match (pos') makes no difference either.
   */
  lemma DecisionIsDeterministic(s: DeflateState, hashHead: nat, win': seq<byte>, pos': nat)
    requires Searchable(s, hashHead) && s.WindowOk() && s.tuning.maxChain >= 4
    requires |win'| == s.window.Length && 2 <= s.prevLength
    requires win'[..s.strStart + s.lookahead] == s.window[..s.strStart + s.lookahead]
    requires s.prevLength >= MIN_MATCH ==> pos' == s.matchStart
    ensures var (len, at) := Found(s, s.window[..], hashHead, s.matchStart);
      var (len', at') := Found(s, win', hashHead, pos');
      || (s.prevLength >= MIN_MATCH && len <= s.prevLength && len' <= s.prevLength)
      || (len == len' && (len >= MIN_MATCH ==> at == at'))
  {
    hide Sub32, Best, Candidates, Searchable, DeflateState.WindowOk;
    SearchableBounds(s, hashHead);
    var n := ChainLength(s);
    var candidates := Candidates(s, hashHead, n);
    SearchIsDeterministic(s, hashHead, n, s.prevLength, s.matchStart, win');
    StartForgotten(win', s.strStart, candidates, s.prevLength, s.matchStart, pos', NiceLength(s));
    BestBounds(win', s.strStart, candidates, s.prevLength, pos', NiceLength(s));
    BestBounds(s.window[..], s.strStart, candidates, s.prevLength, s.matchStart, NiceLength(s));
  }

  /** Of the strings from `from` up to `to`, those that lie whole in the input have been entered in the tables. */
  ghost predicate Enters(s: DeflateState, before: set<nat>, from: int, to: int)
    reads s`S, s`inserted
  {
    forall a :: a in s.inserted <==> a in before || (from <= a < to && a + MIN_MATCH <= |s.S|)
  }

  /** Looks for a match at strstart, unless the one at hand is long enough or there is nothing to be found. */
  method Consider(s: DeflateState, hashHead: nat)
    requires s.Shape() && s.WindowOk() && s.HighWaterOk() && s.tuning.maxChain >= 4 && s.restart.at <= s.base
    requires s.strStart <= 2 * s.wSize - MIN_LOOKAHEAD && 2 <= s.prevLength <= MAX_MATCH
    requires s.lookahead >= MIN_MATCH ==> IsHead(s, hashHead)
    requires hashHead != 0 ==> s.lookahead >= MIN_MATCH && hashHead < s.strStart
    requires hashHead != 0 && s.strStart - hashHead <= s.MaxDist() ==>
               s.ChainsOk(s.strStart + 1) && OnChain(s, hashHead)
    modifies s`matchStart, s`matchLength
    ensures 2 <= s.matchLength <= MAX_MATCH
    ensures s.matchLength > s.prevLength ==>
              s.matchLength <= s.lookahead && MatchAt(s, s.strStart, s.matchStart, s.matchLength)
    ensures Settled(SituationOf(s, s.prevLength), s.strategy.Filtered?, s.matchLength, s.base + s.matchStart)
  {
    hide OnChain, MatchAt, Searchable, PlainSearch, Poor, Found, NoMatch, Better, IsHead, SituationOf;
    hide DeflateState.ChainsOk, DeflateState.WindowOk, DeflateState.HighWaterOk, DeflateState.Shape;
    s.matchLength := MIN_MATCH - 1;
    SituationFields(s, s.prevLength);
    if hashHead != 0 && s.prevLength < s.tuning.maxLazy && s.strStart - hashHead <= s.MaxDist() {
      HeadIsSearchable(s, hashHead);
      FindMatch(s, hashHead);
    } else if s.prevLength < s.tuning.maxLazy {
      NothingInSight(s, hashHead, s.prevLength);
    }
  }

  /** One step of deflate_slow up to the decision: insert, remember the previous match, look for a new one. */
  method Search(s: DeflateState)
    requires s.Shape() && s.WindowOk() && s.HighWaterOk() && s.InsertOk() && s.KeyOk()
    requires s.ChainsOk(s.strStart - s.insert) && s.lookahead > 0
    requires s.strStart <= 2 * s.wSize - MIN_LOOKAHEAD && s.tuning.maxChain >= 4
    requires 2 <= s.matchLength <= MAX_MATCH && s.restart.at <= s.base
    modifies s`insH, s`inserted, s`matchStart, s`matchLength, s`prevMatch, s`prevLength, s.head, s.prev
    ensures Advanced(s)
    ensures s.prevLength == old(s.matchLength) && s.prevMatch == old(s.matchStart)
    ensures 2 <= s.matchLength <= MAX_MATCH
    ensures s.matchLength > s.prevLength ==>
              s.matchLength <= s.lookahead && MatchAt(s, s.strStart, s.matchStart, s.matchLength)
    ensures Settled(old(SituationOf(s, s.matchLength)), s.strategy.Filtered?, s.matchLength, s.base + s.matchStart)
    ensures s.inserted == old(s.inserted) + (if s.lookahead >= MIN_MATCH then {s.base + s.strStart} else {})
  {
    hide HashAt, PrimedAt, Inv, Pow2, OnChain, MatchAt, Advanced, IsHead, Settled;
    hide DeflateState.ChainsOk, DeflateState.WindowOk, DeflateState.HighWaterOk, DeflateState.KeyOk;
    ghost var v := SituationOf(s, s.matchLength);
    var hashHead := InsertCurrent(s);
    SameSituation(s, old(s.inserted), v);
    s.prevLength, s.prevMatch := s.matchLength, s.matchStart;
    Consider(s, hashHead);
  }

  /** The inserts after a match has been adopted: up to its end, as far as strings are whole. */
  method InsertMatched(s: DeflateState, maxInsert: nat, ghost live: nat)
    requires s.Shape() && s.Holds(live) && maxInsert + MIN_MATCH == live
    requires s.prevLength >= 1 && s.strStart + 1 + s.prevLength <= live
    requires s.insert <= s.strStart && s.ChainsOk(s.strStart + 1 - s.insert)
    requires s.strStart + 1 <= maxInsert ==>
               s.insert == 0 && PrimedAt(s.hashBits, s.insH, s.S, s.base + s.strStart + 1)
    modifies s`strStart, s`prevLength, s`insH, s`inserted, s.head, s.prev
    ensures s.prevLength == 0 && s.strStart == old(s.strStart + s.prevLength)
    ensures s.ChainsOk(s.strStart + 1 - s.insert)
    ensures forall a :: a in s.inserted <==>
      a in old(s.inserted) || (s.base + old(s.strStart) < a <= s.base + s.strStart && a <= s.base + maxInsert)
    ensures s.strStart + 1 <= maxInsert ==>
              s.insert == 0 && PrimedAt(s.hashBits, s.insH, s.S, s.base + s.strStart + 1)
  {
    hide HashAt, PrimedAt, Inv, Pow2;
    while true
      invariant s.prevLength >= 1 && s.strStart + s.prevLength == old(s.strStart + s.prevLength)
      invariant s.insert <= s.strStart && s.ChainsOk(s.strStart + 1 - s.insert)
      invariant forall a :: a in s.inserted <==>
        a in old(s.inserted) || (s.base + old(s.strStart) < a <= s.base + s.strStart && a <= s.base + maxInsert)
      invariant s.strStart + 1 <= maxInsert ==>
                  s.insert == 0 && PrimedAt(s.hashBits, s.insH, s.S, s.base + s.strStart + 1)
      decreases s.prevLength
    {
      s.strStart := s.strStart + 1;
      if s.strStart <= maxInsert {
        var _ := s.InsertString(s.strStart, s.strStart, live);
      } else {
        SkipKeeps(s.hashBits, s.wSize, s.S, s.base, s.inserted, s.strStart - s.insert, s.strStart + 1 - s.insert,
                  s.head[..], s.prev[..]);
      }
      s.prevLength := s.prevLength - 1;
      if s.prevLength == 0 { return; }
    }
  }

  /** Moves past the previous match, which began at strstart - 1. */
  method PassMatch(s: DeflateState)
    requires s.Shape() && s.WindowOk() && s.HighWaterOk() && Advanced(s) && s.insert <= s.strStart
    requires s.strStart >= 1 && MIN_MATCH <= s.prevLength <= s.lookahead + 1
    modifies s`strStart, s`lookahead, s`prevLength, s`insH, s`inserted, s.head, s.prev
    ensures s.WindowOk() && s.HighWaterOk() && s.ChainsOk(s.strStart - s.insert) && s.KeyOk()
    ensures s.lookahead >= MIN_MATCH ==> s.insert == 0
    ensures s.strStart == old(s.strStart + s.prevLength) - 1
    ensures s.strStart + s.lookahead == old(s.strStart + s.lookahead) && s.lookahead < old(s.lookahead)
    ensures Enters(s, old(s.inserted), s.base + old(s.strStart) + 1, s.base + s.strStart)
  {
    hide HashAt, PrimedAt, Inv, Pow2, DeflateState.ChainsOk, DeflateState.Shape;
    s.Sizes();
    ghost var live := s.strStart + s.lookahead;
    var maxInsert := s.strStart + s.lookahead - MIN_MATCH;
    s.lookahead := s.lookahead - (s.prevLength - 1);
    s.prevLength := s.prevLength - 2;
    InsertMatched(s, maxInsert, live);
    s.strStart := s.strStart + 1;
  }

  /** Adopts the previous match: tallies it and moves to its end. */
  method EmitPrevious(s: DeflateState) returns (full: bool)
    requires s.Shape() && s.WindowOk() && s.HighWaterOk() && Advanced(s) && s.insert <= s.strStart
    requires s.strStart >= 1
    requires s.SymsOk() && s.symNext < s.SymEnd() && s.Lossless(s.base + s.strStart - 1)
    requires s.prevLength <= s.lookahead + 1
    requires MatchAt(s, s.strStart - 1, s.prevMatch, s.prevLength)
    modifies s`strStart, s`lookahead, s`prevLength, s`matchLength, s`matchAvailable
    modifies s`insH, s`inserted, s`symNext, s.symBuf, s.head, s.prev
    ensures s.WindowOk() && s.HighWaterOk() && s.ChainsOk(s.strStart - s.insert) && s.KeyOk()
    ensures s.lookahead >= MIN_MATCH ==> s.insert == 0
    ensures s.strStart + s.lookahead == old(s.strStart + s.lookahead) && s.lookahead < old(s.lookahead)
    ensures s.SymsOk() && s.symNext == old(s.symNext) + 3 && full == (s.symNext == s.SymEnd())
    ensures s.Lossless(s.base + s.strStart)
    ensures s.matchLength == MIN_MATCH - 1 && !s.matchAvailable
    ensures s.strStart == old(s.strStart + s.prevLength) - 1
    ensures s.Tallied() == old(s.Tallied() + [Match(s.prevLength, Sub32(s.strStart - 1, s.prevMatch))])
    ensures Enters(s, old(s.inserted), s.base + old(s.strStart) + 1, s.base + s.strStart)
  {
    hide HashAt, PrimedAt, Inv, Pow2, Sub32, Carries, Unpack, Repeats, Advanced, DeflateState.ChainsOk;
    hide DeflateState.WindowOk, DeflateState.HighWaterOk, DeflateState.KeyOk;
    full := s.TallyDist(Sub32(s.strStart - 1, s.prevMatch), s.prevLength - MIN_MATCH, s.base + s.strStart - 1);
    PassMatch(s);
    s.matchAvailable := false;
    s.matchLength := MIN_MATCH - 1;
  }

  /** What deflate_slow keeps from step to step, and from call to call. */
  ghost predicate SlowInv(s: DeflateState)
    reads s`base, s`strStart, s`matchStart, s`blockStart, s`insert, s`insH, s`inserted, s`prevLength
    reads s`totalIn, s`check, s`S, s`lookahead, s`highWater, s`written, s`matchLength, s`matchAvailable
    reads s`symNext, s`header, s`blocks, s`restart, s.window, s.head, s.prev, s.symBuf, s.out
  {
    && s.Shape() && s.tuning.maxChain >= 4
    && s.Ready() && s.SymsOk() && s.symNext < s.SymEnd()
    && s.matchLength <= MAX_MATCH && DeferredOk(s) && s.Lossless(Tally(s))
    && s.Sent() && Open(s.blocks)
  }

  lemma DistanceSurvivesSlide(a: nat, start: uint32, d: nat)
    requires d <= a
    ensures Sub32(a - d, Sub32(start, d)) == Sub32(a, start)
  {
  }

  /** Where deflate_slow stands; the distance is that of the waiting match, in unsigned arithmetic. */
  ghost function StandOf(s: DeflateState): Stand
    reads s`base, s`strStart, s`matchAvailable, s`matchLength, s`matchStart
  {
    Stand(s.base + s.strStart, s.matchAvailable, s.matchLength,
          if s.matchLength >= MIN_MATCH && s.strStart >= 1 then Sub32(s.strStart - 1, s.matchStart) else 0)
  }

  /** fill_window leaves the deferred match where it was, even if its start has wrapped around. */
  method FillSlow(s: DeflateState)
    requires SlowInv(s) && s.out.Idle() && s.lookahead < MIN_LOOKAHEAD
    modifies s`base, s`strStart, s`matchStart, s`blockStart, s`insert, s`insH, s`inserted
    modifies s`nextIn, s`totalIn, s`check, s`S, s`lookahead, s`highWater, s`written
    modifies s.window, s.head, s.prev
    ensures SlowInv(s) && s.out.Idle()
    ensures old(s.S) <= s.S && s.S + s.nextIn == old(s.S + s.nextIn)
    ensures s.strStart <= 2 * s.wSize - MIN_LOOKAHEAD
    ensures s.lookahead >= MIN_LOOKAHEAD || s.nextIn == []
    ensures s.base + s.blockStart == old(s.base + s.blockStart)
    ensures s.lookahead + |s.nextIn| == old(s.lookahead + |s.nextIn|)
    ensures StandOf(s) == old(StandOf(s)) && old(s.inserted) <= s.inserted
    ensures s.SymsOk() && s.Tallied() == old(s.Tallied())
  {
    hide HashAt, PrimedAt, Inv, Pow2, Carries, Sub32, Unpack, Encode, Repeats;
    hide DeflateState.ChainsOk, DeflateState.CheckOk, DeflateState.Sent, DeflateState.WindowOk, DeflateState.KeyOk;
    FillWindow(s);
    CarriesGrows(s.MaxDist(), old(s.S), s.S, s.restart, s.base + s.blockStart, s.blocks, s.Tallied(), Tally(s));
    if s.matchLength >= MIN_MATCH {
      DistanceSurvivesSlide(old(s.strStart - 1), old(s.matchStart), s.base - old(s.base));
      RepeatsGrow(old(s.S), s.S, s.base + s.strStart - 1, Sub32(s.strStart - 1, s.matchStart), s.matchLength);
    }
  }

  /** The state after Search, when one of three things is about to happen. */
  ghost predicate Searched(s: DeflateState)
    reads s, s.window, s.head, s.prev, s.symBuf, s.out
  {
    && s.Shape() && s.tuning.maxChain >= 4
    && Poised(s) && s.SymsOk() && s.symNext < s.SymEnd() && s.Lossless(Tally(s))
    && s.Sent() && Open(s.blocks) && s.out.Idle()
    && (s.matchAvailable ==> s.strStart >= 1)
    && 2 <= s.matchLength <= MAX_MATCH
    && (s.prevLength >= MIN_MATCH ==>
          s.matchAvailable && s.prevLength <= s.lookahead + 1
          && MatchAt(s, s.strStart - 1, s.prevMatch, s.prevLength))
    && (s.matchLength > s.prevLength ==>
          s.matchLength <= s.lookahead && MatchAt(s, s.strStart, s.matchStart, s.matchLength))
  }

  method SearchStep(s: DeflateState)
    requires SlowInv(s) && s.out.Idle() && s.lookahead > 0 && s.strStart <= 2 * s.wSize - MIN_LOOKAHEAD
    modifies s`insH, s`inserted, s`matchStart, s`matchLength, s`prevMatch, s`prevLength, s.head, s.prev
    ensures Searched(s) && s.prevLength == old(s.matchLength) >= 2 && s.prevMatch == old(s.matchStart)
    ensures Settled(old(SituationOf(s, s.matchLength)), s.strategy.Filtered?, s.matchLength, s.base + s.matchStart)
    ensures Enters(s, old(s.inserted), s.base + s.strStart, s.base + s.strStart + 1)
  {
    hide HashAt, PrimedAt, Inv, Pow2, Carries, Sub32, Unpack, Encode, Advanced;
    hide DeflateState.ChainsOk, DeflateState.CheckOk, DeflateState.Sent, DeflateState.WindowOk, DeflateState.KeyOk;
    hide Settled, SituationOf;
    LiveEnd(s);
    Search(s);
  }

  lemma LiveEnd(s: DeflateState)
    requires s.Shape() && s.WindowOk()
    ensures s.base + s.strStart + s.lookahead == |s.S|
  {
  }

  /** The current match is not better: the previous one is adopted. */
  method StepMatch(s: DeflateState) returns (stop: bool)
    requires Searched(s) && s.prevLength >= MIN_MATCH && s.matchLength <= s.prevLength
    requires s.strStart <= 2 * s.wSize - MIN_LOOKAHEAD
    modifies s`strStart, s`lookahead, s`prevLength, s`matchLength, s`matchAvailable
    modifies s`insH, s`inserted, s`symNext, s`blocks, s`blockStart, s.symBuf, s.head, s.prev, s.out
    ensures SlowInv(s) && s.lookahead < old(s.lookahead)
    ensures !s.matchAvailable && s.matchLength == MIN_MATCH - 1 && s.strStart == old(s.strStart + s.prevLength) - 1
    ensures Pours(s.blocks, s.Tallied(), old(s.blocks),
                  old(s.Tallied() + [Match(s.prevLength, Sub32(s.strStart - 1, s.prevMatch))]))
    ensures s.blocks != old(s.blocks) <==> old(s.symNext) + 3 == 3 * (s.litBufsize - 1)
    ensures Enters(s, old(s.inserted), s.base + old(s.strStart) + 1, s.base + s.strStart)
    ensures if stop then s.out.Full() else s.out.Idle()
    ensures Quiet(s, old(s.base + s.blockStart), old(s.out.availOut), old(s.out.bits))
    ensures s.out.availOut <= old(s.out.availOut) && s.out.Room() == old(s.out.Room())
  {
    hide HashAt, PrimedAt, Inv, Pow2, Carries, Sub32, Unpack, Encode;
    hide DeflateState.ChainsOk, DeflateState.CheckOk, DeflateState.Sent, DeflateState.WindowOk, DeflateState.KeyOk;
    var full := EmitPrevious(s);
    if full {
      FlushBlockOnly(s, false);
    }
    stop := full && s.out.availOut == 0;
  }

  /** Tallies the byte before strstart, and flushes the block when the buffer is full. */
  method SendWaiting(s: DeflateState)
    requires s.Shape() && s.WindowOk() && s.SymsOk() && s.symNext < s.SymEnd() && s.Sent() && Open(s.blocks)
    requires s.out.Idle() && 1 <= s.strStart <= 2 * s.wSize - MIN_LOOKAHEAD && s.Lossless(s.base + s.strStart - 1)
    modifies s`symNext, s`blocks, s`blockStart, s.symBuf, s.out
    ensures s.SymsOk() && s.symNext < s.SymEnd() && s.Lossless(s.base + s.strStart) && s.Sent() && Open(s.blocks)
    ensures Pours(s.blocks, s.Tallied(), old(s.blocks), old(s.Tallied() + [Literal(s.S[s.base + s.strStart - 1])]))
    ensures s.blocks != old(s.blocks) <==> old(s.symNext) + 3 == 3 * (s.litBufsize - 1)
    ensures if s.out.availOut == 0 then s.out.Full() else s.out.Idle()
    ensures Quiet(s, old(s.base + s.blockStart), old(s.out.availOut), old(s.out.bits))
    ensures s.out.availOut <= old(s.out.availOut) && s.out.Room() == old(s.out.Room())
  {
    hide Carries, Unpack, DeflateState.Sent, DeflateState.WindowOk, DeflateState.Shape;
    s.Sizes();
    var full := EmitLiteral(s, s.strStart - 1);
    if full {
      FlushBlockOnly(s, false);
    }
  }

  /** No previous match, or a longer one now: the byte before strstart goes out as a literal. */
  method StepLiteral(s: DeflateState) returns (stop: bool)
    requires Searched(s) && s.matchAvailable && (s.matchLength >= MIN_MATCH ==> s.matchLength > s.prevLength)
    requires s.strStart <= 2 * s.wSize - MIN_LOOKAHEAD
    modifies s`strStart, s`lookahead, s`symNext, s`blocks, s`blockStart, s.symBuf, s.out
    ensures SlowInv(s) && s.lookahead < old(s.lookahead) && s.strStart == old(s.strStart) + 1
    ensures Pours(s.blocks, s.Tallied(), old(s.blocks), old(s.Tallied() + [Literal(s.S[s.base + s.strStart - 1])]))
    ensures s.blocks != old(s.blocks) <==> old(s.symNext) + 3 == 3 * (s.litBufsize - 1)
    ensures if stop then s.out.Full() else s.out.Idle()
    ensures Quiet(s, old(s.base + s.blockStart), old(s.out.availOut), old(s.out.bits))
    ensures s.out.availOut <= old(s.out.availOut) && s.out.Room() == old(s.out.Room())
  {
    hide Carries, Sub32, Unpack, Repeats, Poised, DeflateState.Ready, DeflateState.Sent, DeflateState.WindowOk;
    hide DeflateState.HighWaterOk, DeflateState.Shape;
    s.Sizes();
    PoisedBounds(s);
    SendWaiting(s);
    Advance(s);
    stop := s.out.availOut == 0;
  }

  lemma SlowBounds(s: DeflateState)
    requires SlowInv(s)
    ensures s.Shape() && s.SymsOk() && s.symBuf as object != s.head && s.symBuf as object != s.prev
    ensures 2 <= s.matchLength <= MAX_MATCH && s.base + s.strStart <= |s.S|
    ensures s.matchAvailable ==> s.strStart >= 1
    ensures s.matchLength >= MIN_MATCH ==> s.matchAvailable
  {
    hide Carries, Repeats;
  }

  /** Nothing to compare with yet: the byte at strstart waits for the next step. */
  method StepDefer(s: DeflateState)
    requires Searched(s) && !s.matchAvailable && (s.matchLength >= MIN_MATCH ==> s.matchLength > s.prevLength)
    modifies s`strStart, s`lookahead, s`matchAvailable
    ensures SlowInv(s) && s.lookahead < old(s.lookahead) && s.out.Idle()
    ensures s.matchAvailable && s.strStart == old(s.strStart) + 1
  {
    hide Carries, Sub32, Unpack, Repeats, Poised, DeflateState.Ready, DeflateState.Sent;
    PoisedBounds(s);
    s.matchAvailable := true;
    Advance(s);
  }

  lemma SettledWorse(v: Situation, filtered: bool, len: nat, a: nat)
    requires Settled(v, filtered, len, a) && len <= v.toBeat
    ensures NoneBetter(v, filtered)
  {
  }

  /** Only a match within the lookahead can be longer than the waiting one. */
  lemma LongerFits(s: DeflateState)
    requires Searched(s)
    ensures s.matchLength > s.prevLength ==> s.matchLength <= s.lookahead
    ensures s.matchLength >= 2
  {
  }

  /** The body of a step: search, then one of three things. */
  method Act(s: DeflateState) returns (stop: bool)
    requires SlowInv(s) && s.out.Idle() && s.lookahead > 0 && s.strStart <= 2 * s.wSize - MIN_LOOKAHEAD
    modifies s`strStart, s`lookahead, s`prevLength, s`prevMatch, s`matchLength, s`matchStart, s`matchAvailable
    modifies s`insH, s`inserted, s`symNext, s`blocks, s`blockStart, s.symBuf, s.head, s.prev, s.out
    ensures SlowInv(s) && s.lookahead < old(s.lookahead)
    ensures old(s.matchLength) >= MIN_MATCH && old(s.matchLength) >= old(s.lookahead) ==> !s.matchAvailable
    ensures s.matchAvailable ==>
      && s.strStart == old(s.strStart) + 1 && s.matchLength >= 2
      && (old(s.matchLength) >= MIN_MATCH ==> s.matchLength > old(s.matchLength))
      && Settled(old(SituationOf(s, s.matchLength)), s.strategy.Filtered?, s.matchLength, s.base + s.matchStart)
      && (old(s.matchAvailable) ==>
            Pours(s.blocks, s.Tallied(), old(s.blocks), old(s.Tallied() + [Literal(s.S[s.base + s.strStart - 1])])))
      && (!old(s.matchAvailable) ==>
            s.blocks == old(s.blocks) && Pours(s.blocks, s.Tallied(), old(s.blocks), old(s.Tallied())))
      && (old(s.matchAvailable) ==>
            (s.blocks != old(s.blocks) <==> old(s.symNext) + 3 == 3 * (s.litBufsize - 1)))
    ensures !s.matchAvailable ==>
      && s.strStart == old(s.strStart + s.matchLength) - 1 && old(s.matchLength) >= MIN_MATCH && s.matchLength == 2
      && NoneBetter(old(SituationOf(s, s.matchLength)), s.strategy.Filtered?)
      && Pours(s.blocks, s.Tallied(), old(s.blocks),
               old(s.Tallied() + [Match(s.matchLength, Sub32(s.strStart - 1, s.matchStart))]))
      && (s.blocks != old(s.blocks) <==> old(s.symNext) + 3 == 3 * (s.litBufsize - 1))
    ensures Enters(s, old(s.inserted), old(s.base + s.strStart), s.base + s.strStart)
    ensures if stop then s.out.Full() else s.out.Idle()
    ensures Quiet(s, old(s.base + s.blockStart), old(s.out.availOut), old(s.out.bits))
    ensures s.out.availOut <= old(s.out.availOut) && s.out.Room() == old(s.out.Room())
  {
    hide Searched, SlowInv, Settled, NoneBetter, SituationOf, Pours, Unpack, DeflateState.Shape;
    SlowBounds(s);
    ghost var syms, v := s.Tallied(), SituationOf(s, s.matchLength);
    SituationFields(s, s.matchLength);
    SearchStep(s);
    LongerFits(s);
    assert s.Tallied() == syms;
    if s.prevLength >= MIN_MATCH && s.matchLength <= s.prevLength {
      SettledWorse(v, s.strategy.Filtered?, s.matchLength, s.base + s.matchStart);
      stop := StepMatch(s);
    } else if s.matchAvailable {
      stop := StepLiteral(s);
    } else {
      StepDefer(s);
      assert s.Tallied() == syms;
      PoursNothing(s.blocks, syms);
      stop := false;
    }
  }

  /** What is tallied when the next byte has to wait: the one that waited before. */
  function Waited(v: Situation, waiting: bool): seq<Symbol>
    requires waiting ==> 1 <= v.at <= |v.input|
  {
    if waiting then [Literal(v.input[v.at - 1])] else []
  }

  lemma DeferIsLazy(v: Situation, filtered: bool, from: Stand, len: nat, a: nat)
    requires v.at == from.at && v.toBeat == from.len >= 2 && v.at + v.ahead == |v.input| && v.ahead > 0
    requires (from.waiting ==> v.at >= 1) && len >= 2 && (from.len >= MIN_MATCH ==> len > from.len)
    requires Settled(v, filtered, len, a)
    ensures len >= MIN_MATCH ==> a < v.at
    ensures LazyMove(Move(v, from, Stand(v.at + 1, true, len, if len >= MIN_MATCH then v.at - a else 0),
                          Waited(v, from.waiting), v.entered + Whole(v, v.at + 1)), filtered)
  {
    hide Whole, NoneBetter, NoMatch, Between, Agrees;
  }

  lemma AdoptIsLazy(v: Situation, filtered: bool, from: Stand)
    requires v.at == from.at && v.toBeat == from.len >= MIN_MATCH && v.at + v.ahead == |v.input| && v.ahead > 0
    requires NoneBetter(v, filtered)
    ensures LazyMove(Move(v, from, Plain(v.at + from.len - 1), [Match(from.len, from.dist)],
                          v.entered + Whole(v, v.at + from.len - 1)), filtered)
  {
    hide Whole, NoneBetter;
  }

  lemma AfterIsEntered(s: DeflateState, v: Situation, before: set<nat>)
    requires Enters(s, before, v.at, s.base + s.strStart) && v.entered <= before && v.input == s.S
    requires v.at <= s.base + s.strStart && forall a :: a in v.entered ==> a < v.at
    ensures v.entered + Whole(v, s.base + s.strStart) <= Entered(s)
  {
  }

  lemma SlowSituation(s: DeflateState)
    requires SlowInv(s)
    ensures s.Shape() && s.WindowOk()
  {
  }

  /**
   One step of deflate_slow on a window with something ahead; `stop` when the output is full.  It makes a lazy
   move: a match that was waiting is adopted whole unless a strictly longer one starts at the next byte; a byte
   without a match waits too.
   */
  method Step(s: DeflateState) returns (stop: bool, ghost m: Move)
    requires SlowInv(s) && s.out.Idle() && s.lookahead > 0 && s.strStart <= 2 * s.wSize - MIN_LOOKAHEAD
    modifies s`strStart, s`lookahead, s`prevLength, s`prevMatch, s`matchLength, s`matchStart, s`matchAvailable
    modifies s`insH, s`inserted, s`symNext, s`blocks, s`blockStart, s.symBuf, s.head, s.prev, s.out
    ensures SlowInv(s) && s.lookahead < old(s.lookahead)
    ensures old(s.matchLength) >= MIN_MATCH && old(s.matchLength) >= old(s.lookahead) ==> !s.matchAvailable
    ensures LazyMove(m, s.strategy.Filtered?) && m.v == old(SituationOf(s, s.matchLength))
    ensures m.from == old(StandOf(s)) && m.to == StandOf(s) && m.after <= Entered(s)
    ensures s.SymsOk() && Pours(s.blocks, s.Tallied(), old(s.blocks), old(s.Tallied()) + m.syms)
    ensures Sized(s, old(s.blocks), old(|s.Tallied()|), |m.syms|)
    ensures if stop then s.out.Full() else s.out.Idle()
    ensures Quiet(s, old(s.base + s.blockStart), old(s.out.availOut), old(s.out.bits))
    ensures s.out.availOut <= old(s.out.availOut) && s.out.Room() == old(s.out.Room())
  {
    hide SlowInv, Settled, NoneBetter, SituationOf, Pours, Unpack, LazyMove, Entered, Enters, Whole, Quiet;
    hide DeflateState.Shape, DeflateState.SymsOk;
    SlowBounds(s);
    SlowSituation(s);
    SituationIs(s, s.matchLength);
    ghost var syms, v, from := s.Tallied(), SituationOf(s, s.matchLength), StandOf(s);
    TalliedLength(s);
    stop := Act(s);
    SlowBounds(s);
    assert syms + [] == syms;
    ghost var after := v.entered + Whole(v, s.base + s.strStart);
    AfterIsEntered(s, v, old(s.inserted));
    if s.matchAvailable {
      DeferIsLazy(v, s.strategy.Filtered?, from, s.matchLength, s.base + s.matchStart);
      if s.matchLength >= MIN_MATCH { NearIsSub32(s.strStart - 1, s.matchStart); }
      m := Move(v, from, StandOf(s), Waited(v, from.waiting), after);
    } else {
      AdoptIsLazy(v, s.strategy.Filtered?, from);
      m := Move(v, from, StandOf(s), [Match(from.len, from.dist)], after);
    }
  }

  /** With nothing ahead no match can be waiting, and only whole strings have been inserted. */
  lemma NothingDeferred(s: DeflateState)
    requires SlowInv(s) && s.lookahead == 0
    ensures s.matchLength == 2 && s.strStart <= 2 * s.wSize && s.base + s.strStart == |s.S|
  {
    hide Inv, Carries, Encode, Repeats;
  }

  /** The end of deflate_slow: the deferred byte goes out, and the last strings are left to insert. */
  method EmitDeferred(s: DeflateState)
    requires SlowInv(s) && s.out.Idle() && s.nextIn == [] && s.lookahead == 0
    requires s.strStart <= 2 * s.wSize - MIN_LOOKAHEAD
    modifies s`insert, s`matchAvailable, s`symNext, s.symBuf
    ensures s.Shape() && s.WindowOk() && s.HighWaterOk() && s.InsertOk() && s.ChainsOk(s.strStart - s.insert)
    ensures s.SymsOk() && s.Lossless(s.base + s.strStart) && s.matchLength == 2 && !s.matchAvailable
    ensures s.Tallied() == old(s.Tallied()) + (if old(s.matchAvailable) then [Literal(s.S[|s.S| - 1])] else [])
    ensures s.insert == Min(s.strStart, 2)
  {
    hide HashAt, PrimedAt, Inv, Pow2, Carries, Sub32, Unpack, Encode, Repeats, Open;
    hide DeflateState.CheckOk, DeflateState.Sent, DeflateState.WindowOk, DeflateState.KeyOk;
    NothingDeferred(s);
    if s.matchAvailable {
      var _ := EmitLiteral(s, s.strStart - 1);
      s.matchAvailable := false;
    }
    s.insert := if s.strStart < MIN_MATCH - 1 then s.strStart else MIN_MATCH - 1;
    LastTwoNotInserted(s.hashBits, s.wSize, s.S, s.base, s.inserted, s.strStart - old(s.insert), s.strStart - s.insert,
                       s.head[..], s.prev[..]);
  }

  method Wrapup(s: DeflateState, flush: Flush) returns (r: BlockState)
    requires SlowInv(s) && s.out.Idle() && s.nextIn == [] && s.lookahead == 0
    requires s.strStart <= 2 * s.wSize - MIN_LOOKAHEAD
    modifies s`insert, s`matchAvailable, s`symNext, s`blocks, s`blockStart, s.symBuf, s.out
    ensures match r
      case NeedMore => SlowInv(s) && s.out.Full()
      case BlockDone => SlowInv(s) && s.out.Idle() && Drained(s)
      case FinishStarted => Ended(s) && s.out.Full()
      case FinishDone => Ended(s) && s.out.Idle() && s.out.availOut > 0
    ensures s.matchLength == 2 && !s.matchAvailable && s.SymsOk() && s.insert == Min(s.strStart, 2)
    ensures Pours(s.blocks, s.Tallied(), old(s.blocks),
                  old(s.Tallied() + if s.matchAvailable then [Literal(s.S[|s.S| - 1])] else []))
    ensures flush.Finish? <==> r.FinishStarted? || r.FinishDone?
    ensures !flush.Finish? ==> Quiet(s, old(s.base + s.blockStart), old(s.out.availOut), old(s.out.bits))
    ensures s.out.availOut <= old(s.out.availOut) && s.out.Room() == old(s.out.Room())
  {
    hide HashAt, PrimedAt, Inv, Pow2, Carries, Sub32, Unpack, Encode, Repeats, Ended, Open, Drained;
    hide DeflateState.CheckOk, DeflateState.Sent, DeflateState.WindowOk, DeflateState.ChainsOk;
    EmitDeferred(s);
    r := FlushTail(s, flush);
  }

  lemma EndIsLazy(s: DeflateState, filtered: bool)
    requires SlowInv(s) && s.lookahead == 0 && s.matchAvailable
    ensures |s.S| >= 1
    ensures LazyMove(Move(SituationOf(s, 2), StandOf(s), Plain(s.base + s.strStart), [Literal(s.S[|s.S| - 1])],
                          Entered(s) + Whole(SituationOf(s, 2), s.base + s.strStart)), filtered)
  {
    hide Inv, Carries, Encode, Repeats;
  }

  lemma NothingWhole(v: Situation)
    ensures Whole(v, v.at) == {}
  {
  }

  ghost predicate AllLazy(moves: seq<Move>, filtered: bool) {
    forall i :: 0 <= i < |moves| ==> LazyMove(moves[i], filtered)
  }

  /** The end of a call, as the last move if a byte still waits. */
  method Conclude(s: DeflateState, flush: Flush, ghost moves: seq<Move>, ghost from: Stand, ghost n: nat,
                  ghost syms: seq<Symbol>)
    returns (r: BlockState, ghost moves': seq<Move>)
    requires SlowInv(s) && s.out.Idle() && s.nextIn == [] && s.lookahead == 0
    requires s.strStart <= 2 * s.wSize - MIN_LOOKAHEAD
    requires Run(s, moves, from, StandOf(s), n, syms) && AllLazy(moves, s.strategy.Filtered?)
    modifies s`insert, s`matchAvailable, s`symNext, s`blocks, s`blockStart, s.symBuf, s.out
    ensures Run(s, moves', from, StandOf(s), n, syms) && AllLazy(moves', s.strategy.Filtered?)
    ensures s.insert == Min(s.strStart, 2)
    ensures match r
      case NeedMore => SlowInv(s) && s.out.Full()
      case BlockDone => SlowInv(s) && s.out.Idle() && Drained(s)
      case FinishStarted => Ended(s) && s.out.Full()
      case FinishDone => Ended(s) && s.out.Idle() && s.out.availOut > 0
    ensures flush.Finish? <==> r.FinishStarted? || r.FinishDone?
    ensures !flush.Finish? ==> Quiet(s, old(s.base + s.blockStart), old(s.out.availOut), old(s.out.bits))
    ensures s.out.availOut <= old(s.out.availOut) && s.out.Room() == old(s.out.Room())
  {
    hide SlowInv, Account, Ended, Drained, Quiet, LazyMove, Pours, SituationOf, Entered, Whole, Unpack;
    SlowBounds(s);
    NothingDeferred(s);
    OfSituation(s, 2);
    SlowSituation(s);
    SituationIs(s, 2);
    ghost var waiting, stand, v, symbols := s.matchAvailable, StandOf(s), SituationOf(s, 2), s.Tallied();
    ghost var m := Move(v, stand, Plain(s.base + s.strStart), if waiting then [Literal(s.S[|s.S| - 1])] else [],
                        Entered(s) + Whole(v, s.base + s.strStart));
    if waiting { EndIsLazy(s, s.strategy.Filtered?); }
    NothingWhole(v);
    moves' := moves;
    assert symbols + [] == symbols;
    ghost var was := StandingOf(s);
    r := Wrapup(s, flush);
    if waiting {
      AccountMoved(s, moves, from, m, was, StandingOf(s), n, syms);
      moves' := moves + [m];
    } else {
      AccountSent(s, moves, from, stand, was, StandingOf(s), n, syms);
    }
  }

  lemma RoomAhead(s: DeflateState)
    requires SlowInv(s)
    ensures s.lookahead >= MIN_LOOKAHEAD ==> s.strStart <= 2 * s.wSize - MIN_LOOKAHEAD
  {
    hide Inv;
  }

  lemma NoMoves(filtered: bool)
    ensures AllLazy([], filtered)
  {
  }

  /** fill_window, with the account of the moves. */
  method FillAccounted(s: DeflateState, ghost moves: seq<Move>, ghost from: Stand, ghost n: nat,
                       ghost syms: seq<Symbol>)
    requires SlowInv(s) && s.out.Idle() && s.lookahead < MIN_LOOKAHEAD
    requires Run(s, moves, from, StandOf(s), n, syms)
    modifies s`base, s`strStart, s`matchStart, s`blockStart, s`insert, s`insH, s`inserted
    modifies s`nextIn, s`totalIn, s`check, s`S, s`lookahead, s`highWater, s`written
    modifies s.window, s.head, s.prev
    ensures SlowInv(s) && s.out.Idle() && Run(s, moves, from, StandOf(s), n, syms)
    ensures old(s.S) <= s.S && s.S + s.nextIn == old(s.S + s.nextIn)
    ensures s.strStart <= 2 * s.wSize - MIN_LOOKAHEAD
    ensures s.lookahead >= MIN_LOOKAHEAD || s.nextIn == []
    ensures s.base + s.blockStart == old(s.base + s.blockStart)
    ensures s.lookahead + |s.nextIn| == old(s.lookahead + |s.nextIn|)
  {
    hide SlowInv, Account, Unpack;
    ghost var was := StandingOf(s);
    FillSlow(s);
    SlowBounds(s);
    AccountRead(s, moves, from, StandOf(s), was, StandingOf(s), n, syms);
  }

  /** One step, with the account of the moves. */
  method StepAccounted(s: DeflateState, ghost moves: seq<Move>, ghost from: Stand, ghost n: nat,
                       ghost syms: seq<Symbol>)
    returns (stop: bool, ghost moves': seq<Move>)
    requires SlowInv(s) && s.out.Idle() && s.lookahead > 0 && s.strStart <= 2 * s.wSize - MIN_LOOKAHEAD
    requires AllLazy(moves, s.strategy.Filtered?) && Run(s, moves, from, StandOf(s), n, syms)
    modifies s`strStart, s`lookahead, s`prevLength, s`prevMatch, s`matchLength, s`matchStart, s`matchAvailable
    modifies s`insH, s`inserted, s`symNext, s`blocks, s`blockStart, s.symBuf, s.head, s.prev, s.out
    ensures SlowInv(s) && s.lookahead < old(s.lookahead)
    ensures AllLazy(moves', s.strategy.Filtered?) && Run(s, moves', from, StandOf(s), n, syms)
    ensures if stop then s.out.Full() else s.out.Idle()
    ensures Quiet(s, old(s.base + s.blockStart), old(s.out.availOut), old(s.out.bits))
    ensures s.out.availOut <= old(s.out.availOut) && s.out.Room() == old(s.out.Room())
  {
    hide SlowInv, Account, Quiet, LazyMove, Pours, SituationOf, Entered, Unpack;
    OfSituation(s, s.matchLength);
    ghost var was := StandingOf(s);
    ghost var m;
    stop, m := Step(s);
    SlowBounds(s);
    AccountMoved(s, moves, from, m, was, StandingOf(s), n, syms);
    moves' := moves + [m];
  }

  /** deflate_slow: the lazy parse of the input, move by move, and the blocks it goes out in. */
  method DeflateSlow(s: DeflateState, flush: Flush) returns (r: BlockState, ghost moves: seq<Move>)
    requires SlowInv(s) && s.out.Idle()
    modifies s`base, s`strStart, s`matchStart, s`blockStart, s`insert, s`insH, s`inserted, s`prevLength, s`prevMatch
    modifies s`nextIn, s`totalIn, s`check, s`S, s`lookahead, s`highWater, s`written, s`matchLength, s`matchAvailable
    modifies s`symNext, s`blocks, s.window, s.head, s.prev, s.symBuf, s.out
    ensures s.S + s.nextIn == old(s.S + s.nextIn) && old(s.S) <= s.S
    ensures AllLazy(moves, s.strategy.Filtered?)
    ensures Run(s, moves, old(StandOf(s)), StandOf(s), old(|s.blocks|), old(s.Tallied()))
    ensures match r
      case NeedMore => SlowInv(s) && Paused(s, flush)
      case BlockDone =>
        SlowInv(s) && s.out.Idle() && Drained(s) && !flush.NoFlush? && !flush.Finish? && s.insert == Min(s.strStart, 2)
      case FinishStarted => Ended(s) && s.out.Full() && flush.Finish?
      case FinishDone => Ended(s) && s.out.Idle() && s.out.availOut > 0 && flush.Finish?
    ensures r.NeedMore? || r.BlockDone? ==>
              Quiet(s, old(s.base + s.blockStart), old(s.out.availOut), old(s.out.bits))
    ensures s.out.availOut <= old(s.out.availOut) && s.out.Room() == old(s.out.Room())
  {
    hide Ended, Drained, SlowInv, Run, AllLazy, Unpack, DeflateState.Shape, DeflateState.SymsOk;
    SlowBounds(s);
    moves := [];
    ghost var from, n, syms := StandOf(s), |s.blocks|, s.Tallied();
    RunStart(s, from);
    NoMoves(s.strategy.Filtered?);
    while true
      invariant SlowInv(s) && s.out.Idle() && s.out.availOut <= old(s.out.availOut)
      invariant s.out.Room() == old(s.out.Room())
      invariant Quiet(s, old(s.base + s.blockStart), old(s.out.availOut), old(s.out.bits))
      invariant s.S + s.nextIn == old(s.S + s.nextIn) && old(s.S) <= s.S
      invariant AllLazy(moves, s.strategy.Filtered?) && Run(s, moves, from, StandOf(s), n, syms)
      decreases |s.nextIn| + s.lookahead
    {
      if s.lookahead < MIN_LOOKAHEAD {
        FillAccounted(s, moves, from, n, syms);
        if s.lookahead < MIN_LOOKAHEAD && flush.NoFlush? { return NeedMore, moves; }
        if s.lookahead == 0 { break; }
      }
      RoomAhead(s);
      var stop;
      stop, moves := StepAccounted(s, moves, from, n, syms);
      if stop { return NeedMore, moves; }
    }
    r, moves := Conclude(s, flush, moves, from, n, syms);
  }
}

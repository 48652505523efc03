/** deflate_rle and deflate_huff: matches of distance one, and no matches at all. */
module RunLength {
  import opened Basics
  import opened Lz77
  import opened RollingHash
  import opened HashChains
  import opened Blocks
  import opened Memory
  import opened DeflateStates
  import opened Window
  import opened Flushing
  import opened Longest
  import opened Parses

  /** What both keep from step to step and from call to call; they insert no strings. */
  ghost predicate PlainInv(s: DeflateState)
    reads s`base, s`strStart, s`matchStart, s`blockStart, s`insert, s`insH, s`inserted, s`prevLength
    reads s`totalIn, s`check, s`S, s`lookahead, s`highWater, s`written, s`matchLength, s`matchAvailable
    reads s`symNext, s`header, s`blocks, s`restart, s.window, s.head, s.prev, s.symBuf, s.out
  {
    && s.Shape()
    && s.InOrder() && s.SymsOk() && s.symNext < s.SymEnd()
    && s.Lossless(s.base + s.strStart) && s.Sent() && Open(s.blocks)
    && (s.strategy.HuffmanOnly? ==> 3 * (s.strStart - s.blockStart) == s.symNext)
  }

  method FillPlain(s: DeflateState)
    requires PlainInv(s) && s.out.Idle() && s.lookahead < MIN_LOOKAHEAD
    modifies s`base, s`strStart, s`matchStart, s`blockStart, s`insert, s`insH, s`inserted
    modifies s`nextIn, s`totalIn, s`check, s`S, s`lookahead, s`highWater, s`written
    modifies s.window, s.head, s.prev
    ensures PlainInv(s) && s.out.Idle()
    ensures old(s.S) <= s.S && s.S + s.nextIn == old(s.S + s.nextIn)
    ensures s.lookahead + |s.nextIn| == old(s.lookahead + |s.nextIn|)
    ensures s.strStart <= 2 * s.wSize - MIN_LOOKAHEAD
    ensures s.lookahead >= MIN_LOOKAHEAD || s.nextIn == []
    ensures s.base + s.blockStart == old(s.base + s.blockStart)
    ensures s.base + s.strStart == old(s.base + s.strStart) && old(s.inserted) <= s.inserted
    ensures s.SymsOk() && s.Tallied() == old(s.Tallied())
  {
    hide HashAt, PrimedAt, Inv, Pow2, Carries, Sub32, Unpack, Encode;
    hide DeflateState.ChainsOk, DeflateState.CheckOk, DeflateState.Sent, DeflateState.WindowOk, DeflateState.KeyOk;
    FillWindow(s);
    CarriesGrows(s.MaxDist(), old(s.S), s.S, s.restart, s.base + s.blockStart, s.blocks, s.Tallied(),
                 s.base + s.strStart);
  }

  /** Moves strstart on by n without inserting anything. */
  method MoveOn(s: DeflateState, n: nat)
    requires s.Shape() && s.InOrder() && 1 <= n <= s.lookahead
    modifies s`strStart, s`lookahead
    ensures s.strStart == old(s.strStart) + n && s.lookahead == old(s.lookahead) - n && s.InOrder()
  {
    hide HashAt, PrimedAt, Inv, Pow2;
    SkipKeeps(s.hashBits, s.wSize, s.S, s.base, s.inserted, s.strStart - s.insert, s.strStart + n - s.insert,
              s.head[..], s.prev[..]);
    s.strStart := s.strStart + n;
    s.lookahead := s.lookahead - n;
  }

  /** How often the byte before `at` repeats from `at` on, up to MAX_MATCH; 0 if less than three times. */
  method CountRun(window: array<byte>, at: nat, ghost init: set<nat>) returns (len: nat)
    requires 0 < at && at + MAX_MATCH < window.Length
    requires forall i :: at - 1 <= i <= at + MAX_MATCH ==> i in init
    ensures len == 0 || MIN_MATCH <= len <= MAX_MATCH
    ensures forall i :: at <= i < at + len ==> window[i] == window[at - 1]
    ensures len == 0 ==> exists i :: at <= i < at + MIN_MATCH && window[i] != window[at - 1]
    ensures 0 < len < MAX_MATCH ==> window[at + len] != window[at - 1]
  {
    var prev := Fetch(window, at - 1, init);
    if prev != Fetch(window, at, init) || prev != Fetch(window, at + 1, init) || prev != Fetch(window, at + 2, init) {
      return 0;
    }
    var k := 2;
    var equal := true;
    while equal && k < MAX_MATCH
      invariant 2 <= k <= MAX_MATCH && (equal ==> k % 8 == 2)
      invariant forall i :: at <= i < at + k ==> window[i] == prev
      invariant equal <==> window[at + k] == prev
      invariant k == 2 ==> equal
      decreases MAX_MATCH - k
    {
      ghost var start := k;
      var i := 0;
      while equal && i < 8
        invariant 0 <= i <= 8 && k == start + i <= MAX_MATCH - 8 + i
        invariant forall j :: at <= j < at + k ==> window[j] == prev
        invariant equal <==> window[at + k] == prev
        invariant i == 0 ==> equal
        decreases 8 - i
      {
        k := k + 1;
        equal := prev == Fetch(window, at + k, init);
        i := i + 1;
      }
    }
    len := k;
  }

  lemma RunRepeats(win: seq<byte>, s: seq<byte>, base: nat, live: nat, at: nat, n: nat)
    requires live <= |win| && base + live == |s| && win[..live] == s[base..]
    requires 0 < at && at + n <= live
    requires forall i :: at <= i < at + n ==> win[i] == win[at - 1]
    ensures Repeats(s, base + at, 1, n)
  {
    forall k | base + at <= k < base + at + n
      ensures s[k] == s[k - 1]
    {
      assert win[..live][k - base] == s[base..][k - base];
      assert win[..live][k - base - 1] == s[base..][k - base - 1];
    }
  }

  /** Where a byte of the window differs from the one before, no run goes on. */
  lemma RunBreaks(s: DeflateState, i: nat, n: nat)
    requires s.Shape() && s.WindowOk() && 0 < s.strStart <= i < s.strStart + n <= s.strStart + s.lookahead
    requires s.window[i] != s.window[i - 1]
    ensures !Repeats(s.S, s.base + s.strStart, 1, n)
  {
    var live := s.strStart + s.lookahead;
    assert s.window[..live][i] == s.S[s.base..][i] && s.window[..live][i - 1] == s.S[s.base..][i - 1];
    assert s.S[s.base + i] != s.S[s.base + i - 1];
  }

  ghost predicate RunFound(v: Situation, len: nat) {
    if len >= MIN_MATCH then WholeRun(v, len) && v.first < v.at
    else !(v.first < v.at && v.ahead >= 3 && Repeats(v.input, v.at, 1, 3))
  }

  /** The run found is whole. */
  lemma RunIsWhole(s: DeflateState, v: Situation, len: nat)
    requires s.Shape() && s.WindowOk() && v == SituationOf(s, v.toBeat)
    requires MIN_MATCH <= len <= MAX_MATCH && len <= s.lookahead && s.strStart > 0 && Repeats(v.input, v.at, 1, len)
    requires len < MAX_MATCH && len < s.lookahead ==>
               s.window[s.strStart + len] != s.window[s.strStart - 1] == s.window[s.strStart + len - 1]
    ensures RunFound(v, len)
  {
    hide Repeats, Entered, DeflateState.WindowOk, DeflateState.Shape;
    if len < Min(s.lookahead, MAX_MATCH) {
      RunBreaks(s, s.strStart + len, len + 1);
    }
  }

  /** If none was found there is none. */
  lemma NoRun(s: DeflateState, v: Situation, len: nat)
    requires s.Shape() && s.WindowOk() && v == SituationOf(s, v.toBeat) && len < MIN_MATCH
    requires s.lookahead >= MIN_MATCH && s.strStart > 0 ==>
               exists i :: s.strStart <= i < s.strStart + MIN_MATCH && s.window[i] != s.window[s.strStart - 1]
    ensures RunFound(v, len)
  {
    hide Repeats, Entered, DeflateState.Shape;
    s.Sizes();
    if s.lookahead >= MIN_MATCH && s.strStart > 0 {
      var i :| s.strStart <= i < s.strStart + MIN_MATCH && s.window[i] != s.window[s.strStart - 1];
      if s.window[i] != s.window[i - 1] {
        RunBreaks(s, i, 3);
      } else if s.window[i - 1] != s.window[i - 2] {
        RunBreaks(s, i - 1, 3);
      } else {
        RunBreaks(s, i - 2, 3);
      }
    }
  }

  /** The length of the run at strstart, limited to the lookahead. */
  method MeasureRun(s: DeflateState)
    requires s.Shape() && s.WindowOk() && s.HighWaterOk() && s.lookahead > 0
    requires s.strStart + MAX_MATCH < 2 * s.wSize
    modifies s`matchLength
    ensures s.matchLength <= MAX_MATCH && s.matchLength <= s.lookahead
    ensures s.matchLength >= MIN_MATCH ==> s.strStart > 0 && Repeats(s.S, s.base + s.strStart, 1, s.matchLength)
    ensures MIN_MATCH <= s.matchLength < MAX_MATCH && s.matchLength < s.lookahead ==>
              && s.window[s.strStart + s.matchLength] != s.window[s.strStart - 1]
              && s.window[s.strStart + s.matchLength - 1] == s.window[s.strStart - 1]
    ensures s.matchLength < MIN_MATCH && s.lookahead >= MIN_MATCH && s.strStart > 0 ==>
              exists i :: s.strStart <= i < s.strStart + MIN_MATCH && s.window[i] != s.window[s.strStart - 1]
  {
    s.matchLength := 0;
    if s.lookahead >= MIN_MATCH && s.strStart > 0 {
      s.ScanIsInitialised();
      s.matchLength := CountRun(s.window, s.strStart, s.written);
      if s.matchLength > s.lookahead {
        s.matchLength := s.lookahead;
      }
      if s.matchLength > 0 {
        var live := s.strStart + s.lookahead;
        assert s.window[..][..live] == s.window[..live];
        RunRepeats(s.window[..], s.S, s.base, live, s.strStart, s.matchLength);
      }
    }
  }

  /** The run at strstart: the whole run, or none. */
  method FindRun(s: DeflateState)
    requires s.Shape() && s.WindowOk() && s.HighWaterOk() && s.lookahead > 0
    requires s.strStart + MAX_MATCH < 2 * s.wSize
    modifies s`matchLength
    ensures s.matchLength <= MAX_MATCH && s.matchLength <= s.lookahead
    ensures s.matchLength >= MIN_MATCH ==> s.strStart > 0 && Repeats(s.S, s.base + s.strStart, 1, s.matchLength)
    ensures RunFound(SituationOf(s, 2), s.matchLength)
  {
    hide SituationOf, RunFound, Repeats, DeflateState.Shape, DeflateState.WindowOk, DeflateState.HighWaterOk;
    SituationIs(s, 2);
    SituationFields(s, 2);
    MeasureRun(s);
    if s.matchLength >= MIN_MATCH {
      RunIsWhole(s, SituationOf(s, 2), s.matchLength);
    } else {
      NoRun(s, SituationOf(s, 2), s.matchLength);
    }
  }

  /** Tallies the run and moves past it. */
  method EmitRun(s: DeflateState) returns (full: bool)
    requires s.Shape() && s.InOrder()
    requires s.SymsOk() && s.symNext < s.SymEnd() && s.Lossless(s.base + s.strStart)
    requires MIN_MATCH <= s.matchLength <= MAX_MATCH && s.matchLength <= s.lookahead && s.strStart > 0
    requires Repeats(s.S, s.base + s.strStart, 1, s.matchLength)
    modifies s`strStart, s`lookahead, s`matchLength, s`symNext, s.symBuf
    ensures s.InOrder()
    ensures s.lookahead < old(s.lookahead) && s.strStart == old(s.strStart + s.matchLength)
    ensures s.SymsOk() && s.Tallied() == old(s.Tallied() + [Match(s.matchLength, 1)])
    ensures s.symNext == old(s.symNext) + 3 && full == (s.symNext == s.SymEnd()) && s.Lossless(s.base + s.strStart)
  {
    hide Carries, Unpack, Repeats, DeflateState.InOrder;
    full := s.TallyDist(1, s.matchLength - MIN_MATCH, s.base + s.strStart);
    MoveOn(s, s.matchLength);
    s.matchLength := 0;
  }

  /** Tallies the byte at strstart and moves past it. */
  method EmitByte(s: DeflateState) returns (full: bool)
    requires s.Shape() && s.InOrder()
    requires s.SymsOk() && s.symNext < s.SymEnd() && s.Lossless(s.base + s.strStart) && s.lookahead > 0
    modifies s`strStart, s`lookahead, s`symNext, s.symBuf
    ensures s.InOrder()
    ensures s.lookahead < old(s.lookahead) && s.strStart == old(s.strStart) + 1
    ensures s.symNext == old(s.symNext) + 3
    ensures s.SymsOk() && s.Tallied() == old(s.Tallied() + [Literal(s.S[s.base + s.strStart])])
    ensures s.symNext == old(s.symNext) + 3 && full == (s.symNext == s.SymEnd()) && s.Lossless(s.base + s.strStart)
  {
    hide Carries, Unpack, DeflateState.InOrder, DeflateState.WindowOk, DeflateState.HighWaterOk;
    s.InOrderWindow();
    full := EmitLiteral(s, s.strStart);
    MoveOn(s, 1);
  }

  /** Takes the run at strstart if there is one, and the byte there if not. */
  method TakeRun(s: DeflateState) returns (full: bool, ghost len: nat)
    requires PlainInv(s) && s.lookahead > 0 && s.strStart + MAX_MATCH < 2 * s.wSize && s.strategy.Rle?
    modifies s`strStart, s`lookahead, s`matchLength, s`symNext, s.symBuf
    ensures s.InOrder() && s.lookahead < old(s.lookahead) && len <= MAX_MATCH
    ensures RunFound(old(SituationOf(s, 2)), len)
    ensures s.strStart == old(s.strStart) + (if len >= MIN_MATCH then len else 1)
    ensures s.SymsOk() && s.Tallied() == old(s.Tallied()) +
      [if len >= MIN_MATCH then Match(len, 1) else Literal(old(s.S[s.base + s.strStart]))]
    ensures s.symNext == old(s.symNext) + 3 && full == (s.symNext == s.SymEnd()) && s.Lossless(s.base + s.strStart)
  {
    hide Carries, Unpack, Repeats, DeflateState.InOrder, DeflateState.Sent, DeflateState.WindowOk, RunFound;
    hide SituationOf, DeflateState.HighWaterOk, DeflateState.Shape;
    s.Sizes();
    s.InOrderWindow();
    FindRun(s);
    len := s.matchLength;
    if s.matchLength >= MIN_MATCH {
      full := EmitRun(s);
    } else {
      full := EmitByte(s);
    }
  }

  lemma IsRunMove(v: Situation, len: nat)
    requires RunFound(v, len) && v.at + v.ahead == |v.input| && v.ahead > 0
    ensures RunMove(if len >= MIN_MATCH then Move(v, Plain(v.at), Plain(v.at + len), [Match(len, 1)], {})
                    else Move(v, Plain(v.at), Plain(v.at + 1), [Literal(v.input[v.at])], {}))
  {
    if len >= MIN_MATCH {
      RepeatsFewer(v.input, v.at, 1, len, 3);
      var m := Move(v, Plain(v.at), Plain(v.at + len), [Match(len, 1)], {});
      assert WholeRun(m.v, len) && m.to == Plain(m.v.at + len) && m.syms == [Match(len, 1)];
    }
  }

  lemma RepeatsFewer(s: seq<byte>, at: nat, dist: nat, n: nat, k: nat)
    requires Repeats(s, at, dist, n) && k <= n
    ensures Repeats(s, at, dist, k)
  {
  }

  lemma PlainSituation(s: DeflateState)
    requires PlainInv(s)
    ensures s.Shape() && s.WindowOk() && s.SymsOk()
  {
  }

  /** One step of deflate_rle; `stop` when the output is full. */
  method StepRle(s: DeflateState) returns (stop: bool, ghost m: Move)
    requires PlainInv(s) && s.out.Idle() && s.lookahead > 0 && s.strStart + MAX_MATCH < 2 * s.wSize
    requires s.strategy.Rle?
    modifies s`strStart, s`lookahead, s`matchLength, s`symNext, s`blocks, s`blockStart, s.symBuf, s.out
    ensures PlainInv(s) && s.lookahead < old(s.lookahead)
    ensures RunMove(m) && m.v == old(SituationOf(s, 2))
    ensures m.from == Plain(old(s.base + s.strStart)) && m.to == Plain(s.base + s.strStart)
    ensures s.SymsOk() && Pours(s.blocks, s.Tallied(), old(s.blocks), old(s.Tallied()) + m.syms)
    ensures Sized(s, old(s.blocks), old(|s.Tallied()|), |m.syms|)
    ensures if stop then s.out.Full() else s.out.Idle()
    ensures Quiet(s, old(s.base + s.blockStart), old(s.out.availOut), old(s.out.bits))
    ensures s.out.availOut <= old(s.out.availOut) && s.out.Room() == old(s.out.Room())
  {
    hide Carries, Unpack, DeflateState.InOrder, DeflateState.Sent, DeflateState.WindowOk, DeflateState.Shape;
    hide RunFound, RunMove, SituationOf;
    s.Sizes();
    PlainSituation(s);
    SituationIs(s, 2);
    ghost var v := SituationOf(s, 2);
    var full;
    ghost var len;
    TalliedLength(s);
    full, len := TakeRun(s);
    IsRunMove(v, len);
    m := if len >= MIN_MATCH then Move(v, Plain(v.at), Plain(v.at + len), [Match(len, 1)], {})
         else Move(v, Plain(v.at), Plain(v.at + 1), [Literal(v.input[v.at])], {});
    s.InOrderWindow();
    if full {
      FlushBlockOnly(s, false);
    }
    stop := full && s.out.availOut == 0;
  }

  /** One step of deflate_huff. */
  method StepHuff(s: DeflateState) returns (stop: bool, ghost m: Move)
    requires PlainInv(s) && s.out.Idle() && s.lookahead > 0 && s.strategy.HuffmanOnly?
    modifies s`strStart, s`lookahead, s`matchLength, s`symNext, s`blocks, s`blockStart, s.symBuf, s.out
    ensures PlainInv(s) && s.lookahead < old(s.lookahead)
    ensures LiteralMove(m) && m.v == old(SituationOf(s, 2))
    ensures m.from == Plain(old(s.base + s.strStart)) && m.to == Plain(s.base + s.strStart)
    ensures s.SymsOk() && Pours(s.blocks, s.Tallied(), old(s.blocks), old(s.Tallied()) + m.syms)
    ensures Sized(s, old(s.blocks), old(|s.Tallied()|), |m.syms|)
    ensures if stop then s.out.Full() else s.out.Idle()
    ensures Quiet(s, old(s.base + s.blockStart), old(s.out.availOut), old(s.out.bits))
    ensures s.out.availOut <= old(s.out.availOut) && s.out.Room() == old(s.out.Room())
  {
    hide Carries, Unpack, DeflateState.InOrder, DeflateState.Sent, DeflateState.WindowOk, SituationOf;
    PlainSituation(s);
    SituationIs(s, 2);
    ghost var v := SituationOf(s, 2);
    m := Move(v, Plain(v.at), Plain(v.at + 1), [Literal(v.input[v.at])], {});
    s.matchLength := 0;
    TalliedLength(s);
    var full := EmitByte(s);
    s.InOrderWindow();
    if full {
      FlushBlockOnly(s, false);
    }
    stop := full && s.out.availOut == 0;
  }

  method Wrapup(s: DeflateState, flush: Flush) returns (r: BlockState)
    requires PlainInv(s) && s.out.Idle() && s.nextIn == [] && s.lookahead == 0
    requires s.strStart <= 2 * s.wSize - MIN_LOOKAHEAD
    modifies s`insert, s`symNext, s`blocks, s`blockStart, s.out
    ensures match r
      case NeedMore => PlainInv(s) && s.out.Full()
      case BlockDone => PlainInv(s) && s.out.Idle() && Drained(s)
      case FinishStarted => Ended(s) && s.out.Full()
      case FinishDone => Ended(s) && s.out.Idle() && s.out.availOut > 0
    ensures s.SymsOk() && Pours(s.blocks, s.Tallied(), old(s.blocks), old(s.Tallied()))
    ensures flush.Finish? <==> r.FinishStarted? || r.FinishDone?
    ensures !flush.Finish? ==> Quiet(s, old(s.base + s.blockStart), old(s.out.availOut), old(s.out.bits))
    ensures s.out.availOut <= old(s.out.availOut) && s.out.Room() == old(s.out.Room())
  {
    hide HashAt, PrimedAt, Inv, Pow2, Carries, Unpack, Encode, DecodesTo, Ended, Open;
    hide DeflateState.CheckOk, DeflateState.Sent;
    SkipKeeps(s.hashBits, s.wSize, s.S, s.base, s.inserted, s.strStart - s.insert, s.strStart, s.head[..], s.prev[..]);
    s.insert := 0;
    r := FlushTail(s, flush);
  }

  lemma RoomToScan(s: DeflateState)
    requires PlainInv(s)
    ensures s.lookahead > MAX_MATCH ==> s.strStart + MAX_MATCH < 2 * s.wSize
  {
    hide Inv;
  }

  ghost predicate AllRuns(moves: seq<Move>) {
    forall i :: 0 <= i < |moves| ==> RunMove(moves[i])
  }

  ghost predicate AllLiterals(moves: seq<Move>) {
    forall i :: 0 <= i < |moves| ==> LiteralMove(moves[i])
  }

  lemma NoMoves()
    ensures AllRuns([]) && AllLiterals([])
  {
  }

  lemma NothingAfter(m: Move)
    requires RunMove(m) || LiteralMove(m)
    ensures m.after == {}
  {
  }

  /** fill_window, with the account of the moves. */
  method FillAccounted(s: DeflateState, ghost moves: seq<Move>, ghost from: Stand, ghost n: nat,
                       ghost syms: seq<Symbol>)
    requires PlainInv(s) && s.out.Idle() && s.lookahead < MIN_LOOKAHEAD
    requires Run(s, moves, from, Plain(s.base + s.strStart), n, syms)
    modifies s`base, s`strStart, s`matchStart, s`blockStart, s`insert, s`insH, s`inserted
    modifies s`nextIn, s`totalIn, s`check, s`S, s`lookahead, s`highWater, s`written
    modifies s.window, s.head, s.prev
    ensures PlainInv(s) && s.out.Idle() && Run(s, moves, from, Plain(s.base + s.strStart), n, syms)
    ensures old(s.S) <= s.S && s.S + s.nextIn == old(s.S + s.nextIn)
    ensures s.strStart <= 2 * s.wSize - MIN_LOOKAHEAD
    ensures s.lookahead >= MIN_LOOKAHEAD || s.nextIn == []
    ensures s.base + s.blockStart == old(s.base + s.blockStart)
    ensures s.lookahead + |s.nextIn| == old(s.lookahead + |s.nextIn|)
  {
    hide PlainInv, Account, Unpack;
    ghost var was := StandingOf(s);
    FillPlain(s);
    PlainSituation(s);
    AccountRead(s, moves, from, Plain(s.base + s.strStart), was, StandingOf(s), n, syms);
  }

  /** One step of deflate_rle, with the account of the moves. */
  method StepRleAccounted(s: DeflateState, ghost moves: seq<Move>, ghost from: Stand, ghost n: nat,
                     ghost syms: seq<Symbol>)
    returns (stop: bool, ghost moves': seq<Move>)
    requires PlainInv(s) && s.out.Idle() && s.lookahead > 0 && s.strategy.Rle? && s.strStart + MAX_MATCH < 2 * s.wSize
    requires AllRuns(moves) && Run(s, moves, from, Plain(s.base + s.strStart), n, syms)
    modifies s`strStart, s`lookahead, s`matchLength, s`symNext, s`blocks, s`blockStart, s.symBuf, s.out
    ensures PlainInv(s) && s.lookahead < old(s.lookahead)
    ensures AllRuns(moves') && Run(s, moves', from, Plain(s.base + s.strStart), n, syms)
    ensures if stop then s.out.Full() else s.out.Idle()
    ensures Quiet(s, old(s.base + s.blockStart), old(s.out.availOut), old(s.out.bits))
    ensures s.out.availOut <= old(s.out.availOut) && s.out.Room() == old(s.out.Room())
  {
    hide PlainInv, Account, Quiet, RunMove, Pours, SituationOf, Entered, Unpack;
    OfSituation(s, 2);
    ghost var was := StandingOf(s);
    ghost var m;
    stop, m := StepRle(s);
    PlainSituation(s);
    NothingAfter(m);
    AccountMoved(s, moves, from, m, was, StandingOf(s), n, syms);
    moves' := moves + [m];
  }

  /** One step of deflate_huff, with the account of the moves. */
  method StepHuffAccounted(s: DeflateState, ghost moves: seq<Move>, ghost from: Stand, ghost n: nat,
                     ghost syms: seq<Symbol>)
    returns (stop: bool, ghost moves': seq<Move>)
    requires PlainInv(s) && s.out.Idle() && s.lookahead > 0 && s.strategy.HuffmanOnly?
    requires AllLiterals(moves) && Run(s, moves, from, Plain(s.base + s.strStart), n, syms)
    modifies s`strStart, s`lookahead, s`matchLength, s`symNext, s`blocks, s`blockStart, s.symBuf, s.out
    ensures PlainInv(s) && s.lookahead < old(s.lookahead)
    ensures AllLiterals(moves') && Run(s, moves', from, Plain(s.base + s.strStart), n, syms)
    ensures if stop then s.out.Full() else s.out.Idle()
    ensures Quiet(s, old(s.base + s.blockStart), old(s.out.availOut), old(s.out.bits))
    ensures s.out.availOut <= old(s.out.availOut) && s.out.Room() == old(s.out.Room())
  {
    hide PlainInv, Account, Quiet, LiteralMove, Pours, SituationOf, Entered, Unpack;
    OfSituation(s, 2);
    ghost var was := StandingOf(s);
    ghost var m;
    stop, m := StepHuff(s);
    PlainSituation(s);
    NothingAfter(m);
    AccountMoved(s, moves, from, m, was, StandingOf(s), n, syms);
    moves' := moves + [m];
  }

  /** The end of a call, with the account of the moves. */
  method WrapupAccounted(s: DeflateState, flush: Flush, ghost moves: seq<Move>, ghost from: Stand, ghost n: nat,
                         ghost syms: seq<Symbol>)
    returns (r: BlockState)
    requires PlainInv(s) && s.out.Idle() && s.nextIn == [] && s.lookahead == 0
    requires s.strStart <= 2 * s.wSize - MIN_LOOKAHEAD
    requires Run(s, moves, from, Plain(s.base + s.strStart), n, syms)
    modifies s`insert, s`symNext, s`blocks, s`blockStart, s.out
    ensures Run(s, moves, from, Plain(s.base + s.strStart), n, syms)
    ensures match r
      case NeedMore => PlainInv(s) && s.out.Full()
      case BlockDone => PlainInv(s) && s.out.Idle() && Drained(s)
      case FinishStarted => Ended(s) && s.out.Full()
      case FinishDone => Ended(s) && s.out.Idle() && s.out.availOut > 0
    ensures flush.Finish? <==> r.FinishStarted? || r.FinishDone?
    ensures !flush.Finish? ==> Quiet(s, old(s.base + s.blockStart), old(s.out.availOut), old(s.out.bits))
    ensures s.out.availOut <= old(s.out.availOut) && s.out.Room() == old(s.out.Room())
  {
    hide PlainInv, Account, Ended, Drained, Quiet, Pours, Unpack;
    ghost var was := StandingOf(s);
    r := Wrapup(s, flush);
    AccountSent(s, moves, from, Plain(s.base + s.strStart), was, StandingOf(s), n, syms);
  }

  /** deflate_rle: the parse of the input into runs, move by move, and the blocks it goes out in. */
  method DeflateRle(s: DeflateState, flush: Flush) returns (r: BlockState, ghost moves: seq<Move>)
    requires PlainInv(s) && s.out.Idle() && s.strategy.Rle?
    modifies s`base, s`strStart, s`matchStart, s`blockStart, s`insert, s`insH, s`inserted, s`prevLength, s`prevMatch
    modifies s`nextIn, s`totalIn, s`check, s`S, s`lookahead, s`highWater, s`written, s`matchLength, s`matchAvailable
    modifies s`symNext, s`blocks, s.window, s.head, s.prev, s.symBuf, s.out
    ensures s.S + s.nextIn == old(s.S + s.nextIn) && old(s.S) <= s.S
    ensures AllRuns(moves)
    ensures Run(s, moves, Plain(old(s.base + s.strStart)), Plain(s.base + s.strStart), old(|s.blocks|),
                old(s.Tallied()))
    ensures match r
      case NeedMore => PlainInv(s) && Paused(s, flush)
      case BlockDone => PlainInv(s) && s.out.Idle() && Drained(s) && !flush.NoFlush? && !flush.Finish?
      case FinishStarted => Ended(s) && s.out.Full() && flush.Finish?
      case FinishDone => Ended(s) && s.out.Idle() && s.out.availOut > 0 && flush.Finish?
    ensures r.NeedMore? || r.BlockDone? ==>
              Quiet(s, old(s.base + s.blockStart), old(s.out.availOut), old(s.out.bits))
    ensures s.out.availOut <= old(s.out.availOut) && s.out.Room() == old(s.out.Room())
  {
    hide Ended, Drained, PlainInv, Run, AllRuns, Unpack, DeflateState.Shape, DeflateState.SymsOk;
    PlainSituation(s);
    moves := [];
    ghost var from, n, syms := Plain(s.base + s.strStart), |s.blocks|, s.Tallied();
    RunStart(s, from);
    NoMoves();
    while true
      invariant PlainInv(s) && s.out.Idle() && s.out.availOut <= old(s.out.availOut)
      invariant s.out.Room() == old(s.out.Room())
      invariant Quiet(s, old(s.base + s.blockStart), old(s.out.availOut), old(s.out.bits))
      invariant s.S + s.nextIn == old(s.S + s.nextIn) && old(s.S) <= s.S
      invariant AllRuns(moves) && Run(s, moves, from, Plain(s.base + s.strStart), n, syms)
      decreases |s.nextIn| + s.lookahead
    {
      if s.lookahead <= MAX_MATCH {
        FillAccounted(s, moves, from, n, syms);
        if s.lookahead <= MAX_MATCH && flush.NoFlush? { return NeedMore, moves; }
        if s.lookahead == 0 { break; }
      }
      RoomToScan(s);
      var stop;
      stop, moves := StepRleAccounted(s, moves, from, n, syms);
      if stop { return NeedMore, moves; }
    }
    r := WrapupAccounted(s, flush, moves, from, n, syms);
  }

  /** deflate_huff: the input as literals, and the blocks they go out in. */
  method DeflateHuff(s: DeflateState, flush: Flush) returns (r: BlockState, ghost moves: seq<Move>)
    requires PlainInv(s) && s.out.Idle() && s.strategy.HuffmanOnly?
    modifies s`base, s`strStart, s`matchStart, s`blockStart, s`insert, s`insH, s`inserted, s`prevLength, s`prevMatch
    modifies s`nextIn, s`totalIn, s`check, s`S, s`lookahead, s`highWater, s`written, s`matchLength, s`matchAvailable
    modifies s`symNext, s`blocks, s.window, s.head, s.prev, s.symBuf, s.out
    ensures s.S + s.nextIn == old(s.S + s.nextIn) && old(s.S) <= s.S
    ensures AllLiterals(moves)
    ensures Run(s, moves, Plain(old(s.base + s.strStart)), Plain(s.base + s.strStart), old(|s.blocks|),
                old(s.Tallied()))
    ensures match r
      case NeedMore => PlainInv(s) && Paused(s, flush)
      case BlockDone => PlainInv(s) && s.out.Idle() && Drained(s) && !flush.NoFlush? && !flush.Finish?
      case FinishStarted => Ended(s) && s.out.Full() && flush.Finish?
      case FinishDone => Ended(s) && s.out.Idle() && s.out.availOut > 0 && flush.Finish?
    ensures r.NeedMore? || r.BlockDone? ==>
              Quiet(s, old(s.base + s.blockStart), old(s.out.availOut), old(s.out.bits))
    ensures s.out.availOut <= old(s.out.availOut) && s.out.Room() == old(s.out.Room())
  {
    hide Ended, Drained, PlainInv, Run, AllLiterals, Unpack, DeflateState.Shape, DeflateState.SymsOk;
    PlainSituation(s);
    moves := [];
    ghost var from, n, syms := Plain(s.base + s.strStart), |s.blocks|, s.Tallied();
    RunStart(s, from);
    NoMoves();
    while true
      invariant PlainInv(s) && s.out.Idle() && s.out.availOut <= old(s.out.availOut)
      invariant s.out.Room() == old(s.out.Room())
      invariant Quiet(s, old(s.base + s.blockStart), old(s.out.availOut), old(s.out.bits))
      invariant s.S + s.nextIn == old(s.S + s.nextIn) && old(s.S) <= s.S
      invariant AllLiterals(moves) && Run(s, moves, from, Plain(s.base + s.strStart), n, syms)
      decreases |s.nextIn| + s.lookahead
    {
      if s.lookahead == 0 {
        FillAccounted(s, moves, from, n, syms);
        if s.lookahead == 0 {
          if flush.NoFlush? { return NeedMore, moves; }
          break;
        }
      }
      var stop;
      stop, moves := StepHuffAccounted(s, moves, from, n, syms);
      if stop { return NeedMore, moves; }
    }
    r := WrapupAccounted(s, flush, moves, from, n, syms);
  }
}

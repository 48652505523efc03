/** Inserting the string at strstart and moving on, as deflate_fast and deflate_slow do. */
module Stepping {
  import opened Basics
  import opened Lz77
  import opened RollingHash
  import opened HashChains
  import opened DeflateStates
  import opened Matching
  import opened Longest

  /** The string at strstart has been dealt with: the tables and the key are ready for the next one. */
  ghost predicate Advanced(s: DeflateState)
    requires s.Shape()
    reads s`S, s`base, s`inserted, s`insH, s`strStart, s`lookahead, s`insert, s.head, s.prev
  {
    && s.ChainsOk(s.strStart + 1 - s.insert)
    && (s.lookahead >= MIN_MATCH ==>
          s.insert == 0 && s.base + s.strStart + MIN_MATCH <= |s.S|
          && PrimedAt(s.hashBits, s.insH, s.S, s.base + s.strStart + 1))
  }

  /** Everything is in order for the move to the next string. */
  ghost predicate Poised(s: DeflateState)
    requires s.Shape()
    reads s`strStart, s`lookahead, s`written, s`base, s`S, s`highWater, s`insert, s`insH, s`inserted
    reads s`check, s`totalIn, s.window, s.head, s.prev
  {
    s.WindowOk() && s.HighWaterOk() && s.InsertOk() && Advanced(s) && s.CheckOk() && s.lookahead > 0
  }

  lemma PoisedBounds(s: DeflateState)
    requires s.Shape() && Poised(s)
    ensures s.WindowOk() && s.HighWaterOk() && s.lookahead > 0 && s.insert <= s.strStart
  {
  }

  /** Inserts the string at strstart, if it is whole. */
  method InsertCurrent(s: DeflateState) returns (hashHead: nat)
    requires s.Shape() && s.WindowOk() && s.InsertOk() && s.KeyOk() && s.ChainsOk(s.strStart - s.insert)
    requires s.lookahead > 0
    modifies s`insH, s`inserted, s.head, s.prev
    ensures Advanced(s)
    ensures s.inserted == old(s.inserted) + (if s.lookahead >= MIN_MATCH then {s.base + s.strStart} else {})
    ensures hashHead != 0 ==> s.lookahead >= MIN_MATCH && hashHead < s.strStart
    ensures hashHead != 0 && s.strStart - hashHead <= s.MaxDist() ==>
              s.ChainsOk(s.strStart + 1) && OnChain(s, hashHead)
    ensures s.lookahead >= MIN_MATCH ==> IsHead(s, hashHead)
  {
    hide HashAt, PrimedAt, Inv, Pow2;
    hashHead := 0;
    if s.lookahead >= MIN_MATCH {
      hashHead := s.InsertString(s.strStart, s.strStart, s.strStart + s.lookahead);
      if hashHead != 0 && s.strStart - hashHead <= s.MaxDist() {
        NearIsLive(s.hashBits, s.wSize, s.S, s.base, s.inserted, s.strStart + 1, s.head[..], s.prev[..], hashHead);
      }
    } else {
      SkipKeeps(s.hashBits, s.wSize, s.S, s.base, s.inserted, s.strStart - s.insert, s.strStart + 1 - s.insert,
                s.head[..], s.prev[..]);
    }
  }

  /** Inserting the string at strstart does not change what there is to find for it. */
  lemma SameSituation(s: DeflateState, before: set<nat>, v: Situation)
    requires s.inserted == before || s.inserted == before + {s.base + s.strStart}
    requires v == SituationOf(s, v.toBeat).(entered := set a | a in before && a < s.base + s.strStart)
    ensures v == SituationOf(s, v.toBeat)
  {
    assert v.entered == set a | a in s.inserted && a < s.base + s.strStart;
  }

  /** Without a live chain near enough there is nothing to be found. */
  lemma NothingInSight(s: DeflateState, hashHead: nat, toBeat: nat)
    requires s.Shape() && toBeat >= MIN_MATCH - 1
    requires s.lookahead >= MIN_MATCH ==> IsHead(s, hashHead)
    requires s.lookahead < MIN_MATCH || hashHead == 0 || s.strStart - hashHead > s.MaxDist()
    ensures NoMatch(SituationOf(s, toBeat))
  {
    hide HashAt, Between;
    var v := SituationOf(s, toBeat);
    forall a: nat, n: nat | Visible(v, a) && Agrees(v, a, n)
      ensures n <= toBeat
    {
      if n >= MIN_MATCH {
        AgreesIsHashed(s, v, a, n);
        assert false;
      }
    }
  }

  /** Moves on to the next string. */
  method Advance(s: DeflateState)
    requires s.Shape() && Poised(s)
    modifies s`strStart, s`lookahead
    ensures s.strStart == old(s.strStart) + 1 && s.lookahead == old(s.lookahead) - 1
    ensures s.Ready()
  {
    hide HashAt, PrimedAt, Inv, Pow2;
    s.strStart := s.strStart + 1;
    s.lookahead := s.lookahead - 1;
  }
}

/**
 What a search for a match is to find, in terms of the input, the strings entered in the tables and the
 numbers of configuration_table.  Positions are those of the stream.
 */
module Longest {
  import opened Basics
  import opened Lz77
  import opened RollingHash
  import opened DeflateStates

  /**
   A search at stream position `at`, with `ahead` bytes of input from there on: the strings entered before it,
   the position of window index 0, and the length a match has to exceed.
   */
  datatype Situation = Situation(input: seq<byte>, at: nat, ahead: nat, entered: set<nat>, first: nat,
                                 hashBits: nat, maxDist: int, tuning: Tuning, toBeat: nat)

  /** The strings before strstart that have been entered. */
  ghost function Entered(s: DeflateState): set<nat>
    reads s`base, s`strStart, s`inserted
  {
    set a | a in s.inserted && a < s.base + s.strStart
  }

  /** The search at strstart. */
  ghost function SituationOf(s: DeflateState, toBeat: nat): Situation
    reads s`S, s`base, s`strStart, s`lookahead, s`inserted
  {
    Situation(s.S, s.base + s.strStart, s.lookahead, Entered(s), s.base, s.hashBits, s.wSize - 262, s.tuning, toBeat)
  }

  lemma SituationIs(s: DeflateState, toBeat: nat)
    requires s.Shape() && s.WindowOk()
    ensures var v := SituationOf(s, toBeat);
      && v.at == s.base + s.strStart && v.toBeat == toBeat && v.ahead == s.lookahead && v.input == s.S
      && v.at + v.ahead == |v.input| && v.entered <= s.inserted && v.tuning == s.tuning
      && forall a :: a in v.entered ==> a < v.at
  {
  }

  lemma SituationFields(s: DeflateState, toBeat: nat)
    ensures var v := SituationOf(s, toBeat); v.toBeat == toBeat && v.tuning == s.tuning && v.first == s.base
  {
  }

  /** The string at a and the one looked for have n bytes in common, all of them input. */
  ghost predicate Agrees(v: Situation, a: nat, n: nat) {
    a < v.at && n <= v.ahead && n <= MAX_MATCH && Repeats(v.input, v.at, v.at - a, n)
  }

  ghost predicate SameHash(v: Situation, a: nat) {
    && HashBits(v.hashBits) && a + MIN_MATCH <= |v.input| && v.at + MIN_MATCH <= |v.input|
    && HashAt(v.hashBits, v.input, a) == HashAt(v.hashBits, v.input, v.at)
  }

  /** The strings of the same hash that come between a and the one looked for. */
  ghost function Between(v: Situation, a: nat): set<nat> {
    set x | x in v.entered && a < x < v.at && SameHash(v, x)
  }

  /** max_chain_length, or a quarter of it if the match to beat is good already. */
  function Patience(v: Situation): nat {
    if v.toBeat < v.tuning.goodLength then v.tuning.maxChain else v.tuning.maxChain / 4
  }

  /**
   The string at a can be found: it is entered and not at window index 0, less than MAX_DIST away, or just
   that far if it is the latest of its hash, and not too many of the same hash come between.
   */
  ghost predicate Visible(v: Situation, a: nat) {
    && a in v.entered && v.first < a < v.at
    && (v.at - a < v.maxDist || (v.at - a == v.maxDist && Between(v, a) == {}))
    && |Between(v, a)| < Patience(v)
  }

  /**
   The match at a is the one to be found: exactly len bytes long; a longer one exists only farther away and
   if len was nice enough to stop at; and every nearer one is shorter, and not nice enough to stop at.
   */
  ghost predicate BestMatch(v: Situation, len: nat, a: nat) {
    && len > v.toBeat && Visible(v, a) && Agrees(v, a, len) && !Agrees(v, a, len + 1)
    && (forall p: nat, n: nat :: Visible(v, p) && Agrees(v, p, n) && n > len ==> len >= v.tuning.niceLength && p < a)
    && (forall p: nat, n: nat :: Visible(v, p) && Agrees(v, p, n) && p > a ==>
          n < len && (n <= v.toBeat || n < v.tuning.niceLength))
  }

  /** Nothing that can be found beats the length to beat. */
  ghost predicate NoMatch(v: Situation) {
    forall p: nat, n: nat :: Visible(v, p) && Agrees(v, p, n) ==> n <= v.toBeat
  }

  /** There is one answer: the best match, or that there is none. */
  lemma AnswerIsUnique(v: Situation, len: nat, a: nat, len': nat, a': nat)
    requires BestMatch(v, len, a)
    ensures !NoMatch(v)
    ensures BestMatch(v, len', a') ==> len' == len && a' == a
  {
  }

  /** A match that deflate_slow discards: a short one under Z_FILTERED, or three bytes from far away. */
  predicate Discarded(filtered: bool, len: nat, dist: int) {
    len <= 5 && (filtered || (len == 3 && dist > 4096))
  }

  /** The match that deflate_slow takes into consideration, with one of length toBeat at hand. */
  ghost predicate Better(v: Situation, filtered: bool, len: nat, a: nat) {
    v.toBeat < v.tuning.maxLazy && BestMatch(v, len, a) && !Discarded(filtered, len, v.at - a)
  }

  /** There is none to consider: it does not look, finds none, or discards the one it finds. */
  ghost predicate NoneBetter(v: Situation, filtered: bool) {
    || v.toBeat >= v.tuning.maxLazy
    || NoMatch(v)
    || exists len: nat, a: nat :: BestMatch(v, len, a) && Discarded(filtered, len, v.at - a)
  }

  /** What deflate_slow makes of a search: a length above the one at hand is that of the match to consider. */
  ghost predicate Settled(v: Situation, filtered: bool, len: nat, a: nat) {
    if len > v.toBeat then Better(v, filtered, len, a) else NoneBetter(v, filtered)
  }

  /** Exactly one of the two, so that what deflate_slow does at a position is determined. */
  lemma BetterOrNone(v: Situation, filtered: bool, len: nat, a: nat)
    requires Better(v, filtered, len, a)
    ensures !NoneBetter(v, filtered)
  {
    forall len': nat, a': nat | BestMatch(v, len', a')
      ensures len' == len && a' == a
    {
      AnswerIsUnique(v, len, a, len', a');
    }
    AnswerIsUnique(v, len, a, len, a);
  }

  lemma BetterIsUnique(v: Situation, filtered: bool, len: nat, a: nat, len': nat, a': nat)
    requires Better(v, filtered, len, a) && Better(v, filtered, len', a')
    ensures len' == len && a' == a
  {
    AnswerIsUnique(v, len, a, len', a');
  }

  /**
   configuration_table by its columns.  A good match is no longer than one that stops the lazy search, and that no
   longer than one that stops the walk; and higher levels of either kind walk farther.
   */
  lemma TuningTable(level: nat)
    requires 1 <= level <= 9
    ensures var t := Configuration(level);
      && t.goodLength == (if level <= 4 then 4 else if level <= 7 then 8 else 32)
      && t.maxLazy == [4, 5, 6, 4, 16, 16, 32, 128, 258][level - 1]
      && t.niceLength == [8, 16, 32, 16, 32, 128, 128, 258, 258][level - 1]
      && t.maxChain == [4, 8, 32, 16, 32, 128, 256, 1024, 4096][level - 1]
    ensures var t := Configuration(level);
      && 4 <= t.goodLength <= t.maxLazy <= t.niceLength <= MAX_MATCH
      && (level !in {3, 9} ==> t.maxChain < Configuration(level + 1).maxChain)
  {
  }

  // ----- Counting -----

  /** Decreasing positions are as many as there are. */
  lemma {:induction false} Distinct(v: seq<nat>, base: nat)
    requires forall i, j :: 0 <= i < j < |v| ==> v[j] < v[i]
    ensures |set i | 0 <= i < |v| :: base + v[i]| == |v|
  {
    var all := set i | 0 <= i < |v| :: base + v[i];
    if v != [] {
      var front, last := v[..|v| - 1], base + v[|v| - 1];
      var some := set i | 0 <= i < |front| :: base + front[i];
      Distinct(front, base);
      assert all == some + {last} by {
        assert forall i :: 0 <= i < |front| ==> front[i] == v[i];
        assert forall x :: x in all ==> x == last || x in some;
      }
      assert last !in some;
    }
  }

  lemma Fewer(a: set<nat>, b: set<nat>)
    requires a <= b
    ensures |a| <= |b|
  {
    if a != b {
      assert b == a + (b - a);
    }
  }
}

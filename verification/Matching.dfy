/** longest_match: a chain walk with shortcuts, against the plain search it stands for. */
module Matching {
  import opened Basics
  import opened Lz77
  import opened RollingHash
  import opened HashChains
  import opened Checks
  import opened Memory
  import opened DeflateStates
  import opened Longest

  predicate Same(win: seq<byte>, p: nat, q: nat, i: nat)
    requires p + i < |win| && q + i < |win|
  {
    win[p + i] == win[q + i]
  }

  /** How many of `max` bytes at p and q agree, given that the first n do. */
  function Common(win: seq<byte>, p: nat, q: nat, n: nat, max: nat): (r: nat)
    requires n <= max && p + max <= |win| && q + max <= |win|
    ensures n <= r <= max
    ensures forall i :: n <= i < r ==> Same(win, p, q, i)
    ensures r < max ==> !Same(win, p, q, r)
    decreases max - n
  {
    if n < max && Same(win, p, q, n) then Common(win, p, q, n + 1, max) else n
  }

  lemma {:induction false} CommonUnique(win: seq<byte>, p: nat, q: nat, n: nat, r: nat, max: nat)
    requires n <= r <= max && p + max <= |win| && q + max <= |win|
    requires forall i :: n <= i < r ==> Same(win, p, q, i)
    requires r < max ==> !Same(win, p, q, r)
    ensures Common(win, p, q, n, max) == r
    decreases r - n
  {
    if n < r {
      CommonUnique(win, p, q, n + 1, r, max);
    }
  }

  /**
   The plain search: measure every candidate in turn, keep the first longest one above `best`,
   and stop at the first that reaches `nice`.
   */
  function Best(win: seq<byte>, scan: nat, candidates: seq<nat>, best: nat, pos: nat, nice: nat): (nat, nat)
    requires scan + MAX_MATCH <= |win|
    requires forall i :: 0 <= i < |candidates| ==> candidates[i] < scan
  {
    if candidates == [] then (best, pos)
    else
      var c := candidates[0];
      var len := Common(win, c, scan, 0, MAX_MATCH);
      if len > best && len >= nice then (len, c)
      else if len > best then Best(win, scan, candidates[1..], len, c, nice)
      else Best(win, scan, candidates[1..], best, pos, nice)
  }

  /**
   The unrolled comparison: eight bytes between tests for the end of the longest match.  It ignores the
   lookahead, but reads only bytes that have been given a value.
   */
  method ScanMatch(window: array<byte>, match0: nat, scan0: nat, ghost init: set<nat>) returns (len: nat)
    requires match0 < scan0 && scan0 + MAX_MATCH < window.Length
    requires forall i :: 0 <= i <= scan0 + MAX_MATCH ==> i in init
    requires forall i :: 0 <= i < MIN_MATCH ==> Same(window[..], match0, scan0, i)
    ensures len == Common(window[..], match0, scan0, 0, MAX_MATCH)
  {
    ghost var win := window[..];
    var k := 2;
    var equal := true;
    while equal && k < MAX_MATCH
      invariant 2 <= k <= MAX_MATCH && (equal ==> k % 8 == 2)
      invariant forall i :: 0 <= i < k ==> Same(win, match0, scan0, i)
      invariant equal <==> Same(win, match0, scan0, k)
      decreases MAX_MATCH - k
    {
      ghost var start := k;
      var i := 0;
      while equal && i < 8
        invariant 0 <= i <= 8 && k == start + i <= MAX_MATCH - 8 + i
        invariant forall i :: 0 <= i < k ==> Same(win, match0, scan0, i)
        invariant equal <==> Same(win, match0, scan0, k)
        invariant i == 0 ==> equal
        decreases 8 - i
      {
        k := k + 1;
        equal := Fetch(window, scan0 + k, init) == Fetch(window, match0 + k, init);
        i := i + 1;
      }
    }
    CommonUnique(win, match0, scan0, 0, k, MAX_MATCH);
    len := k;
  }

  lemma WindowByte(win: seq<byte>, s: seq<byte>, base: nat, live: nat, i: nat)
    requires live <= |win| && base + live == |s| && win[..live] == s[base..] && i < live
    ensures win[i] == s[base + i]
  {
    assert win[..live][i] == s[base..][i];
  }

  /** Agreement of window bytes below the live end is a repeat of the stream. */
  lemma SameIsRepeat(win: seq<byte>, s: seq<byte>, base: nat, live: nat, p: nat, q: nat, n: nat)
    requires live <= |win| && base + live == |s| && win[..live] == s[base..]
    requires p < q && q + n <= live
    requires forall i :: 0 <= i < n ==> Same(win, p, q, i)
    ensures Repeats(s, base + q, q - p, n)
  {
    forall k | base + q <= k < base + q + n
      ensures s[k] == s[k - (q - p)]
    {
      var i := k - base - q;
      assert Same(win, p, q, i);
      WindowByte(win, s, base, live, p + i);
      WindowByte(win, s, base, live, q + i);
    }
  }

  /** Two window strings with one hash that agree on two bytes agree on three. */
  lemma ThreeBytesSame(b: nat, win: seq<byte>, s: seq<byte>, base: nat, live: nat, p: nat, q: nat)
    requires HashBits(b) && live <= |win| && base + live == |s| && win[..live] == s[base..]
    requires p < q && q + MIN_MATCH <= live
    requires HashAt(b, s, base + p) == HashAt(b, s, base + q)
    requires Same(win, p, q, 0) && Same(win, p, q, 1)
    ensures forall i :: 0 <= i < MIN_MATCH ==> Same(win, p, q, i)
  {
    hide HashAt;
    WindowByte(win, s, base, live, p);
    WindowByte(win, s, base, live, p + 1);
    WindowByte(win, s, base, live, p + 2);
    WindowByte(win, s, base, live, q);
    WindowByte(win, s, base, live, q + 1);
    WindowByte(win, s, base, live, q + 2);
    ThirdByteAt(b, s, base + p, base + q);
  }

  /** What a search at strstart starts from: the head of a live chain with the string's own hash. */
  ghost predicate OnChain(s: DeflateState, cur: nat)
    requires s.Shape()
    reads s`strStart, s`lookahead, s`S, s`base, s`inserted
  {
    && cur < s.strStart && Live(s.base, s.inserted, s.wSize, cur)
    && s.lookahead >= MIN_MATCH && s.base + s.strStart + MIN_MATCH <= |s.S|
    && HashAt(s.hashBits, s.S, s.base + cur) == HashAt(s.hashBits, s.S, s.base + s.strStart)
  }

  /** Matches with strings at or below this index are not looked for. */
  function Limit(s: DeflateState): nat
    requires s.Shape()
    reads s`strStart
  {
    if s.strStart > s.MaxDist() then s.strStart - s.MaxDist() else 0
  }

  /** cur is on the chain of the string at strstart, near enough, and the window has room for a full scan. */
  ghost predicate Searchable(s: DeflateState, cur: nat)
    reads s`strStart, s`lookahead, s`S, s`base, s`inserted, s.head, s.prev
  {
    && s.Shape() && s.ChainsOk(s.strStart + 1) && OnChain(s, cur)
    && Limit(s) <= cur && s.strStart + MAX_MATCH < 2 * s.wSize
  }

  lemma HeadIsSearchable(s: DeflateState, cur: nat)
    requires s.Shape() && s.ChainsOk(s.strStart + 1) && OnChain(s, cur) && s.strStart - cur <= s.MaxDist()
    requires s.strStart <= 2 * s.wSize - MIN_LOOKAHEAD
    ensures Searchable(s, cur)
  {
    hide Inv, HashAt;
  }

  lemma SearchableBounds(s: DeflateState, cur: nat)
    requires Searchable(s, cur)
    ensures s.Shape() && Limit(s) <= cur < s.strStart && s.strStart + MAX_MATCH < s.window.Length == 2 * s.wSize
    ensures s.prev.Length == s.wSize && s.lookahead >= MIN_MATCH
  {
  }

  /** One candidate: quick rejections first, and a full comparison that skips the third byte. */
  method TryCandidate(s: DeflateState, cur: nat, best: nat, scanEnd1: byte, scanEnd: byte) returns (len: nat)
    requires Searchable(s, cur) && s.WindowOk() && s.Initialised(s.strStart + MAX_MATCH + 1)
    requires 2 <= best <= MAX_MATCH
    requires scanEnd == s.window[s.strStart + best] && scanEnd1 == s.window[s.strStart + best - 1]
    ensures var c := Common(s.window[..], cur, s.strStart, 0, MAX_MATCH);
      if c > best then len == c else len <= best
  {
    hide HashAt, Pow2;
    var scan := s.strStart;
    ghost var win := s.window[..];
    if Fetch(s.window, cur + best, s.written) != scanEnd {
      assert best < MAX_MATCH ==> !Same(win, cur, scan, best);
      return 0;
    }
    if Fetch(s.window, cur + best - 1, s.written) != scanEnd1 {
      assert !Same(win, cur, scan, best - 1);
      return 0;
    }
    if Fetch(s.window, cur, s.written) != Fetch(s.window, scan, s.written) {
      assert !Same(win, cur, scan, 0);
      return 0;
    }
    if Fetch(s.window, cur + 1, s.written) != Fetch(s.window, scan + 1, s.written) {
      assert !Same(win, cur, scan, 1);
      return 0;
    }
    assert win[..scan + s.lookahead] == s.window[..scan + s.lookahead];
    ThreeBytesSame(s.hashBits, win, s.S, s.base, scan + s.lookahead, cur, scan);
    len := ScanMatch(s.window, cur, scan, s.written);
  }

  /** The next string on a live chain is again a candidate. */
  lemma NextOnChain(s: DeflateState, cur: nat)
    requires Searchable(s, cur)
    ensures var next := s.prev[Slot(s.wSize, cur)]; next > Limit(s) ==> Searchable(s, next) && next < cur
  {
    hide HashAt, Pow2;
    var next := s.prev[Slot(s.wSize, cur)];
    assert s.prev[..][Slot(s.wSize, cur)] == next;
    assert Entry(s.hashBits, s.S, s.base, s.inserted, cur, next, HashAt(s.hashBits, s.S, s.base + cur));
  }

  /** max_chain_length, reduced when the match so far is already good. */
  function ChainLength(s: DeflateState): nat
    reads s`prevLength
  {
    if s.prevLength >= s.tuning.goodLength then s.tuning.maxChain / 4 else s.tuning.maxChain
  }

  function NiceLength(s: DeflateState): nat
    reads s`lookahead
  {
    if s.tuning.niceLength > s.lookahead then s.lookahead else s.tuning.niceLength
  }

  /** The strings longest_match may look at: at most n of them, from cur back. */
  ghost function Candidates(s: DeflateState, cur: nat, n: nat): (v: seq<nat>)
    requires Searchable(s, cur) && n >= 1
    ensures v != [] && forall i :: 0 <= i < |v| ==> v[i] < s.strStart
    reads s`strStart, s`lookahead, s`S, s`base, s`inserted, s.head, s.prev
  {
    hide HashAt, Pow2, Inv;
    Visits(s.hashBits, s.wSize, s.S, s.base, s.inserted, s.strStart + 1, s.head[..], s.prev[..], cur, Limit(s), n)
  }

  /** What longest_match finds, by the plain search. */
  ghost function PlainSearch(s: DeflateState, cur: nat, n: nat, best: nat, pos: nat): (nat, nat)
    requires Searchable(s, cur) && n >= 1
    reads s`strStart, s`S, s`base, s`inserted, s`lookahead, s.window, s.head, s.prev
  {
    Best(s.window[..], s.strStart, Candidates(s, cur, n), best, pos, NiceLength(s))
  }

  lemma CandidatesStep(s: DeflateState, cur: nat, n: nat)
    requires Searchable(s, cur) && n >= 1
    ensures s.prev[Slot(s.wSize, cur)] > Limit(s) ==> Searchable(s, s.prev[Slot(s.wSize, cur)])
    ensures var next := s.prev[Slot(s.wSize, cur)];
      Candidates(s, cur, n) == [cur] + (if next > Limit(s) && n > 1 then Candidates(s, next, n - 1) else [])
  {
    hide HashAt, Pow2, Inv;
    NextOnChain(s, cur);
    assert s.prev[..][Slot(s.wSize, cur)] == s.prev[Slot(s.wSize, cur)];
  }

  lemma BestStep(win: seq<byte>, scan: nat, c: nat, rest: seq<nat>, best: nat, pos: nat, nice: nat)
    requires scan + MAX_MATCH <= |win| && c < scan && forall i :: 0 <= i < |rest| ==> rest[i] < scan
    ensures
      var len := Common(win, c, scan, 0, MAX_MATCH);
      var (best', pos') := if len > best then (len, c) else (best, pos);
      Best(win, scan, [c] + rest, best, pos, nice) ==
        if (len > best && len >= nice) || rest == [] then (best', pos') else Best(win, scan, rest, best', pos', nice)
  {
    hide Common;
    assert ([c] + rest)[1..] == rest;
  }

  /** The plain search, one candidate at a time. */
  lemma PlainSearchStep(s: DeflateState, cur: nat, n: nat, best: nat, pos: nat)
    requires Searchable(s, cur) && n >= 1
    ensures s.prev[Slot(s.wSize, cur)] > Limit(s) ==> Searchable(s, s.prev[Slot(s.wSize, cur)])
    ensures
      var len := Common(s.window[..], cur, s.strStart, 0, MAX_MATCH);
      var next := s.prev[Slot(s.wSize, cur)];
      var (best', pos') := if len > best then (len, cur) else (best, pos);
      PlainSearch(s, cur, n, best, pos) ==
        if (len > best && len >= NiceLength(s)) || next <= Limit(s) || n == 1 then (best', pos')
        else PlainSearch(s, next, n - 1, best', pos')
  {
    hide Searchable, Common, Candidates, Best, DeflateState.Shape;
    CandidatesStep(s, cur, n);
    SearchableBounds(s, cur);
    var next := s.prev[Slot(s.wSize, cur)];
    var rest := if next > Limit(s) && n > 1 then Candidates(s, next, n - 1) else [];
    BestStep(s.window[..], s.strStart, cur, rest, best, pos, NiceLength(s));
  }

  lemma FoundRepeats(s: DeflateState, pos: nat, len: nat)
    requires s.Shape() && s.WindowOk() && pos < s.strStart && len <= s.lookahead && len <= MAX_MATCH
    requires s.strStart + MAX_MATCH <= s.window.Length
    requires len <= Common(s.window[..], pos, s.strStart, 0, MAX_MATCH)
    ensures Repeats(s.S, s.base + s.strStart, s.strStart - pos, len)
  {
    var live := s.strStart + s.lookahead;
    assert s.window[..][..live] == s.window[..live];
    SameIsRepeat(s.window[..], s.S, s.base, live, pos, s.strStart, len);
  }

  /** The two bytes that a better match has to end with. */
  method ScanEnds(s: DeflateState, best: nat) returns (scanEnd1: byte, scanEnd: byte)
    requires s.Shape() && s.Initialised(s.strStart + MAX_MATCH + 1) && 1 <= best <= MAX_MATCH
    ensures scanEnd1 == s.window[s.strStart + best - 1] && scanEnd == s.window[s.strStart + best]
  {
    scanEnd1 := Fetch(s.window, s.strStart + best - 1, s.written);
    scanEnd := Fetch(s.window, s.strStart + best, s.written);
  }

  /** A match of this length, longer than prev_length, is at `start`. */
  ghost predicate Found(s: DeflateState, best: nat, start: nat)
    requires s.Shape() && s.strStart + MAX_MATCH < 2 * s.wSize
    reads s`strStart, s`prevLength, s.window
  {
    && s.prevLength <= best <= MAX_MATCH
    && (best > s.prevLength ==>
          Limit(s) <= start < s.strStart && best <= Common(s.window[..], start, s.strStart, 0, MAX_MATCH))
  }

  /** The walk has come to cur with at most n strings to look at, and is still to find `goal`. */
  ghost predicate Underway(s: DeflateState, cur: nat, n: nat, best: nat, start: nat, goal: (nat, nat))
    reads s`strStart, s`S, s`base, s`inserted, s`lookahead, s`prevLength, s.window, s.head, s.prev
  {
    Searchable(s, cur) && n >= 1 && Found(s, best, start) && PlainSearch(s, cur, n, best, start) == goal
  }

  lemma WalkStart(s: DeflateState, cur: nat)
    requires Searchable(s, cur) && 2 <= s.prevLength <= MAX_MATCH && s.tuning.maxChain >= 4
    ensures Underway(s, cur, ChainLength(s), s.prevLength, s.matchStart,
                     PlainSearch(s, cur, ChainLength(s), s.prevLength, s.matchStart))
  {
    hide PlainSearch;
  }

  lemma WalkStep(s: DeflateState, cur: nat, n: nat, best: nat, start: nat, goal: (nat, nat))
    requires Underway(s, cur, n, best, start, goal)
    ensures
      var len := Common(s.window[..], cur, s.strStart, 0, MAX_MATCH);
      var next := s.prev[Slot(s.wSize, cur)];
      var (best', start') := if len > best then (len, cur) else (best, start);
      && Found(s, best', start')
      && if (len > best && len >= NiceLength(s)) || next <= Limit(s) || n == 1 then goal == (best', start')
         else Underway(s, next, n - 1, best', start', goal) && Searchable(s, next) && next < s.strStart
  {
    SearchableBounds(s, cur);
    NextOnChain(s, cur);
    hide Searchable, PlainSearch, DeflateState.Shape;
    PlainSearchStep(s, cur, n, best, start);
  }

  /** The walk along the chain: the best length, and where it was found. */
  method WalkChain(s: DeflateState, hashHead: nat) returns (best: nat, start: uint32)
    requires Searchable(s, hashHead) && s.WindowOk() && s.Initialised(s.strStart + MAX_MATCH + 1)
    requires 2 <= s.prevLength <= MAX_MATCH && s.tuning.maxChain >= 4
    ensures (best, start) == PlainSearch(s, hashHead, ChainLength(s), s.prevLength, s.matchStart)
    ensures Found(s, best, start)
  {
    hide Common, PlainSearch, Searchable, Underway, Found;
    hide DeflateState.Shape, DeflateState.WindowOk, DeflateState.Initialised;
    SearchableBounds(s, hashHead);
    WalkStart(s, hashHead);
    var cur: nat := hashHead;
    var chain: nat := s.tuning.maxChain;
    if s.prevLength >= s.tuning.goodLength { chain := chain / 4; }
    var nice := s.tuning.niceLength;
    if nice > s.lookahead { nice := s.lookahead; }
    var limit := if s.strStart > s.MaxDist() then s.strStart - s.MaxDist() else 0;
    best, start := s.prevLength, s.matchStart;
    var scanEnd1, scanEnd := ScanEnds(s, best);
    ghost var goal := PlainSearch(s, cur, chain, best, start);
    while true
      invariant Underway(s, cur, chain, best, start, goal) && Searchable(s, cur) && cur < s.strStart
      invariant chain >= 1 && 2 <= best <= MAX_MATCH
      invariant scanEnd1 == s.window[s.strStart + best - 1] && scanEnd == s.window[s.strStart + best]
      decreases chain
    {
      WalkStep(s, cur, chain, best, start, goal);
      var len := TryCandidate(s, cur, best, scanEnd1, scanEnd);
      if len > best {
        best, start := len, cur;
        if len >= nice { return; }
        scanEnd1, scanEnd := ScanEnds(s, best);
      }
      cur := s.prev[Slot(s.wSize, cur)];
      if cur <= limit { return; }
      chain := chain - 1;
      if chain == 0 { return; }
    }
  }

  /** longest_match. */
  method LongestMatch(s: DeflateState, hashHead: nat) returns (len: nat)
    requires Searchable(s, hashHead) && s.WindowOk() && s.HighWaterOk()
    requires 2 <= s.prevLength <= MAX_MATCH && s.tuning.maxChain >= 4 && IsHead(s, hashHead)
    modifies s`matchStart
    ensures Answered(SituationOf(s, s.prevLength), len, s.matchStart, old(s.matchStart))
    ensures
      var (best, pos) := old(PlainSearch(s, hashHead, ChainLength(s), s.prevLength, s.matchStart));
      len == Min(best, s.lookahead) && s.matchStart == pos
    ensures len <= MAX_MATCH && len <= s.lookahead && (len >= s.prevLength || len == s.lookahead)
    ensures len > s.prevLength ==> s.matchStart < s.strStart && s.strStart - s.matchStart <= s.MaxDist()
                                   && Repeats(s.S, s.base + s.strStart, s.strStart - s.matchStart, len)
  {
    hide Searchable, Answered, IsHead, SituationOf, Common, PlainSearch, Repeats;
    hide DeflateState.Shape, DeflateState.WindowOk, DeflateState.HighWaterOk, DeflateState.Initialised;
    SearchableBounds(s, hashHead);
    s.ScanIsInitialised();
    SearchIsBest(s, hashHead, s.matchStart);
    var best, start := WalkChain(s, hashHead);
    s.matchStart := start;
    len := if best <= s.lookahead then best else s.lookahead;
    if len > s.prevLength {
      FoundRepeats(s, s.matchStart, len);
    }
  }

  // ----- What the search is worth -----

  lemma {:induction false} BestBounds(win: seq<byte>, scan: nat, candidates: seq<nat>, best: nat, pos: nat, nice: nat)
    requires scan + MAX_MATCH <= |win| && forall i :: 0 <= i < |candidates| ==> candidates[i] < scan
    ensures Best(win, scan, candidates, best, pos, nice).0 >= best
  {
    if candidates != [] {
      var len := Common(win, candidates[0], scan, 0, MAX_MATCH);
      if !(len > best && len >= nice) {
        BestBounds(win, scan, candidates[1..], if len > best then len else best,
                   if len > best then candidates[0] else pos, nice);
      }
    }
  }

  /** What the plain search returns, for candidates that only go back. */
  lemma {:induction false} BestMeans(win: seq<byte>, scan: nat, v: seq<nat>, best: nat, pos: nat, nice: nat)
    requires scan + MAX_MATCH <= |win| && forall i :: 0 <= i < |v| ==> v[i] < scan
    requires forall i, j :: 0 <= i < j < |v| ==> v[j] < v[i]
    ensures var (len, at) := Best(win, scan, v, best, pos, nice);
      && len >= best && (len == best ==> at == pos)
      && (len > best ==> at in v && Common(win, at, scan, 0, MAX_MATCH) == len)
      && (forall p :: p in v ==>
            var c := Common(win, p, scan, 0, MAX_MATCH);
            && (c <= len || (len > best && len >= nice && p < at))
            && (len > best && p > at ==> c < len && (c <= best || c < nice)))
  {
    hide Common;
    if v != [] {
      var rest := v[1..];
      var c := Common(win, v[0], scan, 0, MAX_MATCH);
      assert forall p :: p in v ==> p == v[0] || p in rest;
      if !(c > best && c >= nice) {
        BestMeans(win, scan, rest, if c > best then c else best, if c > best then v[0] else pos, nice);
      }
    }
  }

  /** A string that agrees with the current one on three bytes has its hash. */
  lemma AgreesIsHashed(s: DeflateState, v: Situation, a: nat, n: nat)
    requires s.Shape() && v == SituationOf(s, v.toBeat) && s.base + s.strStart + MIN_MATCH <= |s.S|
    requires a in v.entered && Agrees(v, a, n) && n >= MIN_MATCH
    ensures SameHash(v, a) && a in s.inserted
    ensures Hashed(s.hashBits, s.S, s.inserted, a, HashAt(s.hashBits, s.S, s.base + s.strStart))
  {
    hide HashAt;
    assert forall k :: v.at <= k < v.at + 3 ==> s.S[k] == s.S[k - (v.at - a)];
    HashAtSame(s.hashBits, s.S, a, v.at);
  }

  /** cur is the latest string of the hash at strstart. */
  ghost predicate IsHead(s: DeflateState, cur: nat)
    reads s`strStart, s`S, s`base, s`inserted
  {
    && HashBits(s.hashBits) && s.base + s.strStart + MIN_MATCH <= |s.S|
    && Entry(s.hashBits, s.S, s.base, s.inserted, s.strStart, cur, HashAt(s.hashBits, s.S, s.base + s.strStart))
  }

  /** The i-th candidate, in the terms of the tables. */
  lemma CandidateIs(s: DeflateState, cur: nat, n: nat, i: nat)
    requires Searchable(s, cur) && n >= 1 && i < |Candidates(s, cur, n)|
    ensures var v := Candidates(s, cur, n);
      && |v| <= n && 0 < v[i] <= cur && (if i == 0 then v[i] == cur else v[i] > Limit(s))
      && (forall j, k :: 0 <= j < k < |v| ==> v[k] < v[j])
      && Hashed(s.hashBits, s.S, s.inserted, s.base + v[i], HashAt(s.hashBits, s.S, s.base + s.strStart))
  {
    hide HashAt, Inv, Visits, Pow2;
    var v := Candidates(s, cur, n);
    VisitsSound(s.hashBits, s.wSize, s.S, s.base, s.inserted, s.strStart + 1, s.head[..], s.prev[..], cur, Limit(s), n);
    assert Candidate(s.hashBits, s.wSize, s.S, s.base, s.inserted, s.strStart + 1, cur, Limit(s), v[i]);
  }

  /** Whatever has the hash and lies above the limit is a candidate, or the walk was cut off before it. */
  lemma CandidateIf(s: DeflateState, cur: nat, n: nat, q: nat)
    requires Searchable(s, cur) && IsHead(s, cur) && n >= 1 && Limit(s) < q < s.strStart
    requires Hashed(s.hashBits, s.S, s.inserted, s.base + q, HashAt(s.hashBits, s.S, s.base + s.strStart))
    ensures var v := Candidates(s, cur, n); q in v || (|v| == n && q < v[n - 1])
  {
    hide HashAt, Inv, Visits, Pow2;
    assert q <= cur;
    VisitsComplete(s.hashBits, s.wSize, s.S, s.base, s.inserted, s.strStart + 1, s.head[..], s.prev[..],
                   cur, Limit(s), n, q);
  }

  /** The strings between a candidate and the current one are the candidates before it. */
  lemma BetweenCandidates(s: DeflateState, v: Situation, cur: nat, n: nat, i: nat)
    requires v == SituationOf(s, v.toBeat) && Searchable(s, cur) && IsHead(s, cur) && n >= 1
    requires i < |Candidates(s, cur, n)|
    ensures |Between(v, s.base + Candidates(s, cur, n)[i])| <= i
  {
    hide HashAt, Searchable, Candidates;
    SearchableBounds(s, cur);
    var c := Candidates(s, cur, n);
    CandidateIs(s, cur, n, i);
    var before := set j | 0 <= j < i :: s.base + c[..i][j];
    forall x | x in Between(v, s.base + c[i])
      ensures x in before
    {
      var q: nat := x - s.base;
      assert s.base + q == x;
      if i == 0 { assert q > cur; }
      CandidateIf(s, cur, n, q);
      assert q in c;
      var j :| 0 <= j < |c| && c[j] == q;
      assert j < i;
      assert c[..i][j] == q;
    }
    Distinct(c[..i], s.base);
    assert before == set j | 0 <= j < |c[..i]| :: s.base + c[..i][j];
    Fewer(Between(v, s.base + c[i]), before);
  }

  /** A candidate can be found. */
  lemma CandidateIsVisible(s: DeflateState, v: Situation, cur: nat, i: nat)
    requires v == SituationOf(s, v.toBeat) && Searchable(s, cur) && IsHead(s, cur) && Patience(v) >= 1
    requires i < |Candidates(s, cur, Patience(v))|
    ensures Visible(v, s.base + Candidates(s, cur, Patience(v))[i])
  {
    hide HashAt, Searchable, Candidates, Between;
    SearchableBounds(s, cur);
    CandidateIs(s, cur, Patience(v), i);
    BetweenCandidates(s, v, cur, Patience(v), i);
  }

  /** What can be found and has the hash is a candidate. */
  lemma VisibleIsCandidate(s: DeflateState, v: Situation, cur: nat, q: nat)
    requires v == SituationOf(s, v.toBeat) && Searchable(s, cur) && IsHead(s, cur) && Patience(v) >= 1
    requires Visible(v, s.base + q) && SameHash(v, s.base + q)
    ensures q in Candidates(s, cur, Patience(v))
  {
    hide HashAt, Searchable, Candidates;
    SearchableBounds(s, cur);
    var n := Patience(v);
    var c := Candidates(s, cur, n);
    CandidateIs(s, cur, n, 0);
    assert q < cur ==> s.base + cur in Between(v, s.base + q);
    if q > Limit(s) {
      CandidateIf(s, cur, n, q);
      if q !in c {
        var all := set j | 0 <= j < |c| :: s.base + c[j];
        forall x | x in all
          ensures x in Between(v, s.base + q)
        {
          var j :| 0 <= j < |c| && x == s.base + c[j];
          CandidateIs(s, cur, n, j);
        }
        Distinct(c, s.base);
        Fewer(all, Between(v, s.base + q));
      }
    }
  }

  /** A repeat of the stream within the input is agreement of window bytes. */
  lemma RepeatIsSame(win: seq<byte>, s: seq<byte>, base: nat, live: nat, p: nat, q: nat, n: nat)
    requires live <= |win| && base + live == |s| && win[..live] == s[base..]
    requires p < q && q + n <= live && n <= MAX_MATCH && q + MAX_MATCH <= |win|
    requires Repeats(s, base + q, q - p, n)
    ensures n <= Common(win, p, q, 0, MAX_MATCH)
  {
    var c := Common(win, p, q, 0, MAX_MATCH);
    if c < n {
      WindowByte(win, s, base, live, p + c);
      WindowByte(win, s, base, live, q + c);
      assert s[base + q + c] == s[base + q + c - (q - p)];
      assert Same(win, p, q, c);
      assert false;
    }
  }

  /** Agreement within the input is agreement in the window. */
  lemma AgreesIsCommon(s: DeflateState, v: Situation, p: nat, n: nat)
    requires s.Shape() && s.WindowOk() && s.strStart + MAX_MATCH <= s.window.Length
    requires v == SituationOf(s, v.toBeat) && p < s.strStart
    ensures Agrees(v, s.base + p, n) <==> n <= s.lookahead && n <= Common(s.window[..], p, s.strStart, 0, MAX_MATCH)
  {
    hide Repeats, Common, DeflateState.Shape;
    s.Sizes();
    var win, live := s.window[..], s.strStart + s.lookahead;
    assert win[..live] == s.window[..live];
    CommonBounds(win, p, s.strStart);
    if n <= s.lookahead && n <= Common(win, p, s.strStart, 0, MAX_MATCH) {
      FoundRepeats(s, p, n);
    } else if Agrees(v, s.base + p, n) {
      RepeatIsSame(win, s.S, s.base, live, p, s.strStart, n);
    }
  }

  lemma CommonBounds(win: seq<byte>, p: nat, q: nat)
    requires p + MAX_MATCH <= |win| && q + MAX_MATCH <= |win|
    ensures Common(win, p, q, 0, MAX_MATCH) <= MAX_MATCH
  {
  }

  /** A string in sight that agrees with the current one on three bytes is among those the plain search measures. */
  lemma AgreesIsMeasured(s: DeflateState, v: Situation, cur: nat, a: nat, n: nat)
    requires v == SituationOf(s, v.toBeat) && Searchable(s, cur) && IsHead(s, cur) && s.WindowOk() && Patience(v) >= 1
    requires Visible(v, a) && Agrees(v, a, n) && n >= MIN_MATCH
    ensures s.base < a < v.at && a - s.base in Candidates(s, cur, Patience(v))
    ensures n <= s.lookahead && n <= Common(s.window[..], a - s.base, s.strStart, 0, MAX_MATCH)
  {
    hide HashAt, Searchable, Candidates, Common, Between;
    SearchableBounds(s, cur);
    var q: nat := a - s.base;
    assert s.base + q == a;
    AgreesIsHashed(s, v, a, n);
    VisibleIsCandidate(s, v, cur, q);
    AgreesIsCommon(s, v, q, n);
  }

  /** What longest_match returns and what it leaves in match_start. */
  ghost predicate Answered(v: Situation, len: nat, start: nat, start0: nat) {
    if len > v.toBeat then BestMatch(v, len, v.first + start)
    else NoMatch(v) && len == Min(v.toBeat, v.ahead) && (v.toBeat < v.ahead ==> start == start0)
  }

  /** The candidates are all that matters: a string in sight that agrees further than the length to beat is one. */
  ghost predicate AllMeasured(v: Situation, win: seq<byte>, scan: nat, c: seq<nat>)
    requires scan + MAX_MATCH <= |win| && forall i :: 0 <= i < |c| ==> c[i] < scan
  {
    forall a: nat, n: nat :: Visible(v, a) && Agrees(v, a, n) && n > v.toBeat ==>
      v.first < a && a - v.first in c && n <= v.ahead && n <= Common(win, a - v.first, scan, 0, MAX_MATCH)
  }

  lemma MeasuresAll(s: DeflateState, v: Situation, cur: nat)
    requires v == SituationOf(s, v.toBeat) && Searchable(s, cur) && IsHead(s, cur) && s.WindowOk() && Patience(v) >= 1
    requires v.toBeat >= 2
    ensures s.strStart + MAX_MATCH <= s.window.Length
    ensures AllMeasured(v, s.window[..], s.strStart, Candidates(s, cur, Patience(v)))
  {
    hide HashAt, Searchable, Candidates, Common, Visible, Agrees, IsHead, DeflateState.WindowOk, DeflateState.Shape;
    SearchableBounds(s, cur);
    forall a: nat, n: nat | Visible(v, a) && Agrees(v, a, n) && n > v.toBeat
      ensures s.base < a && a - s.base in Candidates(s, cur, Patience(v)) && n <= s.lookahead
      ensures n <= Common(s.window[..], a - s.base, s.strStart, 0, MAX_MATCH)
    {
      AgreesIsMeasured(s, v, cur, a, n);
    }
  }

  /** If the plain search of all that matters finds something in sight, it is the best match. */
  lemma MeasuredIsBest(v: Situation, win: seq<byte>, scan: nat, c: seq<nat>, start: nat)
    requires scan + MAX_MATCH <= |win| && forall i :: 0 <= i < |c| ==> c[i] < scan
    requires forall i, j :: 0 <= i < j < |c| ==> c[j] < c[i]
    requires AllMeasured(v, win, scan, c)
    requires var (best, at) := Best(win, scan, c, v.toBeat, start, Min(v.tuning.niceLength, v.ahead));
      var len := Min(best, v.ahead);
      len > v.toBeat ==>
        Visible(v, v.first + at) && Agrees(v, v.first + at, len) && !Agrees(v, v.first + at, len + 1)
    ensures var (best, at) := Best(win, scan, c, v.toBeat, start, Min(v.tuning.niceLength, v.ahead));
      Answered(v, Min(best, v.ahead), at, start)
  {
    hide Common, Best, Visible, Agrees;
    BestMeans(win, scan, c, v.toBeat, start, Min(v.tuning.niceLength, v.ahead));
  }

  /** The result of the plain search from the head of the chain is the best match in sight. */
  lemma SearchIsBest(s: DeflateState, cur: nat, start: nat)
    requires Searchable(s, cur) && IsHead(s, cur) && s.WindowOk() && s.prevLength >= 2 && s.tuning.maxChain >= 4
    ensures var (best, at) := PlainSearch(s, cur, ChainLength(s), s.prevLength, start);
      Answered(SituationOf(s, s.prevLength), Min(best, s.lookahead), at, start)
  {
    hide HashAt, Searchable, Candidates, Common, Best, Visible, Agrees, IsHead, Answered, AllMeasured;
    hide DeflateState.WindowOk, DeflateState.Shape;
    SearchableBounds(s, cur);
    var v := SituationOf(s, s.prevLength);
    var c := Candidates(s, cur, Patience(v));
    CandidateIs(s, cur, Patience(v), 0);
    MeasuresAll(s, v, cur);
    BestMeans(s.window[..], s.strStart, c, s.prevLength, start, NiceLength(s));
    var (best, at) := PlainSearch(s, cur, ChainLength(s), s.prevLength, start);
    var len := Min(best, s.lookahead);
    if len > v.toBeat {
      var i :| 0 <= i < |c| && c[i] == at;
      CandidateIsVisible(s, v, cur, i);
      AgreesIsCommon(s, v, at, len);
      AgreesIsCommon(s, v, at, len + 1);
      assert v.first + at == s.base + at;
    }
    MeasuredIsBest(v, s.window[..], s.strStart, c, start);
  }

  /**
   In other words: a string in the tables, less than MAX_DIST away and not at window index 0, that agrees with the
   current one further than the result (and than prev_length) is passed over only if the result is nice_length or
   more, or if max_chain strings of its hash lie between, a quarter of that if prev_length is good_length or more.
   */
  lemma NothingLonger(v: Situation, len: nat, start: nat, start0: nat, p: nat, n: nat)
    requires Answered(v, len, start, start0)
    requires p in v.entered && v.first < p < v.at && v.at - p < v.maxDist && Agrees(v, p, n)
    ensures n <= len || n <= v.toBeat || len >= v.tuning.niceLength
            || |Between(v, p)| >= (if v.toBeat >= v.tuning.goodLength then v.tuning.maxChain / 4 else v.tuning.maxChain)
  {
  }

  // ----- What the search depends on -----

  /** A common length below `ahead` is settled by the bytes below scan + ahead. */
  lemma CommonAhead(win: seq<byte>, win': seq<byte>, c: nat, scan: nat, ahead: nat)
    requires |win| == |win'| && c < scan && scan + MAX_MATCH <= |win| && scan + ahead <= |win|
    requires win[..scan + ahead] == win'[..scan + ahead]
    requires Common(win, c, scan, 0, MAX_MATCH) < ahead
    ensures Common(win', c, scan, 0, MAX_MATCH) == Common(win, c, scan, 0, MAX_MATCH)
  {
    var len := Common(win, c, scan, 0, MAX_MATCH);
    forall i | 0 <= i <= len && i < MAX_MATCH
      ensures Same(win', c, scan, i) == Same(win, c, scan, i)
    {
      assert win[..scan + ahead][c + i] == win'[..scan + ahead][c + i];
      assert win[..scan + ahead][scan + i] == win'[..scan + ahead][scan + i];
    }
    CommonUnique(win', c, scan, 0, len, MAX_MATCH);
  }

  /**
   Since nice_match is cut to the lookahead, what lies beyond the input decides neither the length
   found nor, as long as prev_length is below the lookahead, where it was found.
   */
  lemma {:induction false} InputDecides(win: seq<byte>, win': seq<byte>, scan: nat, ahead: nat, candidates: seq<nat>,
                                        best: nat, pos: nat, nice: nat)
    requires |win| == |win'| && scan + MAX_MATCH <= |win| && scan + ahead <= |win|
    requires win[..scan + ahead] == win'[..scan + ahead] && nice <= ahead
    requires forall i :: 0 <= i < |candidates| ==> candidates[i] < scan
    ensures var (len, at) := Best(win, scan, candidates, best, pos, nice);
      var (len', at') := Best(win', scan, candidates, best, pos, nice);
      Min(len, ahead) == Min(len', ahead) && (best < ahead ==> at == at')
  {
    BestBounds(win, scan, candidates, best, pos, nice);
    BestBounds(win', scan, candidates, best, pos, nice);
    if candidates != [] && best < ahead {
      var c := candidates[0];
      var len, len' := Common(win, c, scan, 0, MAX_MATCH), Common(win', c, scan, 0, MAX_MATCH);
      if len' < ahead { CommonAhead(win', win, c, scan, ahead); }
      if len < ahead {
        CommonAhead(win, win', c, scan, ahead);
        InputDecides(win, win', scan, ahead, candidates[1..], if len > best then len else best,
                     if len > best then c else pos, nice);
      }
    }
  }

  /** A match cannot get longer than MAX_MATCH. */
  lemma {:induction false} NothingAboveMax(win: seq<byte>, scan: nat, candidates: seq<nat>, best: nat, pos: nat,
                                           nice: nat)
    requires scan + MAX_MATCH <= |win| && forall i :: 0 <= i < |candidates| ==> candidates[i] < scan
    requires best >= MAX_MATCH
    ensures Best(win, scan, candidates, best, pos, nice) == (best, pos)
  {
    if candidates != [] {
      NothingAboveMax(win, scan, candidates[1..], best, pos, nice);
    }
  }

  /** The length longest_match returns, and its position if PositionExactly says so, come from the input alone. */
  lemma SearchIsDeterministic(s: DeflateState, cur: nat, n: nat, best: nat, pos: nat, win': seq<byte>)
    requires Searchable(s, cur) && s.WindowOk() && n >= 1 && |win'| == s.window.Length
    requires win'[..s.strStart + s.lookahead] == s.window[..s.strStart + s.lookahead]
    ensures var (len, at) := PlainSearch(s, cur, n, best, pos);
      var (len', at') := Best(win', s.strStart, Candidates(s, cur, n), best, pos, NiceLength(s));
      Min(len, s.lookahead) == Min(len', s.lookahead) && (best < s.lookahead || best >= MAX_MATCH ==> at == at')
  {
    hide Inv, Pow2, Visits, HashAt;
    assert s.window[..][..s.strStart + s.lookahead] == s.window[..s.strStart + s.lookahead];
    InputDecides(s.window[..], win', s.strStart, s.lookahead, Candidates(s, cur, n), best, pos, NiceLength(s));
    if best >= MAX_MATCH {
      NothingAboveMax(s.window[..], s.strStart, Candidates(s, cur, n), best, pos, NiceLength(s));
      NothingAboveMax(win', s.strStart, Candidates(s, cur, n), best, pos, NiceLength(s));
    }
  }

  /** The starting position matters only if nothing better than `best` is found. */
  lemma {:induction false} StartForgotten(win: seq<byte>, scan: nat, candidates: seq<nat>, best: nat, pos: nat,
                                          pos': nat, nice: nat)
    requires scan + MAX_MATCH <= |win| && forall i :: 0 <= i < |candidates| ==> candidates[i] < scan
    ensures var (len, at) := Best(win, scan, candidates, best, pos, nice);
      var (len', at') := Best(win, scan, candidates, best, pos', nice);
      len == len' && (len > best ==> at == at')
  {
    if candidates != [] && Common(win, candidates[0], scan, 0, MAX_MATCH) <= best {
      StartForgotten(win, scan, candidates[1..], best, pos, pos', nice);
    }
  }

  /** The position found does not depend on what lies beyond the input, whatever window and chain are searched. */
  ghost predicate PositionFixed(size: nat, scan: nat, ahead: nat, best: nat, nice: nat) {
    forall win: seq<byte>, win': seq<byte>, candidates: seq<nat>, pos: nat ::
      && |win| == |win'| == size && scan + MAX_MATCH <= size && scan + ahead <= size
      && win[..scan + ahead] == win'[..scan + ahead]
      && (forall i :: 0 <= i < |candidates| ==> 0 < candidates[i] < scan)
      ==> Best(win, scan, candidates, best, pos, nice).1 == Best(win', scan, candidates, best, pos, nice).1
  }

  /** One byte beyond the input decides whether the string just before the current one is better than `best`. */
  lemma ByteBeyondDecides(size: nat, scan: nat, best: nat, nice: nat)
    requires scan >= 2 && scan + MAX_MATCH <= size && best < MAX_MATCH
    ensures var win := seq(size, _ => 0 as byte);
      var win' := win[scan + best := 1];
      && Best(win, scan, [scan - 1], best, 0, nice).1 == scan - 1
      && Best(win', scan, [scan - 1], best, 0, nice).1 == 0
  {
    var win := seq(size, _ => 0 as byte);
    var win' := win[scan + best := 1];
    CommonUnique(win, scan - 1, scan, 0, MAX_MATCH, MAX_MATCH);
    CommonUnique(win', scan - 1, scan, 0, best, MAX_MATCH);
    assert [scan - 1][1..] == [];
  }

  /**
   Exactly when the position longest_match finds comes from the input alone: prev_length is below the
   lookahead, or no match can be longer.
   */
  lemma PositionExactly(size: nat, scan: nat, ahead: nat, best: nat, nice: nat)
    requires scan >= 2 && scan + MAX_MATCH <= size && scan + ahead <= size && nice <= ahead
    ensures PositionFixed(size, scan, ahead, best, nice) <==> best < ahead || best >= MAX_MATCH
  {
    if best < ahead || best >= MAX_MATCH {
      forall win: seq<byte>, win': seq<byte>, candidates: seq<nat>, pos: nat |
        && |win| == |win'| == size && win[..scan + ahead] == win'[..scan + ahead]
        && (forall i :: 0 <= i < |candidates| ==> 0 < candidates[i] < scan)
        ensures Best(win, scan, candidates, best, pos, nice).1 == Best(win', scan, candidates, best, pos, nice).1
      {
        if best < ahead {
          InputDecides(win, win', scan, ahead, candidates, best, pos, nice);
        } else {
          NothingAboveMax(win, scan, candidates, best, pos, nice);
          NothingAboveMax(win', scan, candidates, best, pos, nice);
        }
      }
    } else {
      var win := seq(size, _ => 0 as byte);
      var win' := win[scan + best := 1];
      assert win[..scan + ahead] == win'[..scan + ahead];
      ByteBeyondDecides(size, scan, best, nice);
      assert Best(win, scan, [scan - 1], best, 0, nice).1 != Best(win', scan, [scan - 1], best, 0, nice).1;
    }
  }

  /**
   An input at which the position does depend on them: level 6 and Z_FINISH on the bytes 97, 0, 0, 0, 0, 0
   in a window of the smallest size.  At strstart 3 the lookahead is 3, the match waiting has length 4 and
   start 1, and the chain holds 2 and 1.  Byte 6 is beyond the input: zero in a new window, and after a full
   flush whatever an earlier input has left there.
   */
  lemma PositionMayDiffer()
    ensures var win := [97] + seq(1023, _ => 0 as byte);
      var win' := win[6 := 1];
      && win[..6] == win'[..6] == [97, 0, 0, 0, 0, 0]
      && Best(win, 3, [2, 1], 4, 1, 3).1 == 2 && Best(win', 3, [2, 1], 4, 1, 3).1 == 1
  {
    var win := [97] + seq(1023, _ => 0 as byte);
    var win' := win[6 := 1];
    CommonUnique(win, 2, 3, 0, MAX_MATCH, MAX_MATCH);
    CommonUnique(win', 2, 3, 0, 3, MAX_MATCH);
    CommonUnique(win', 1, 3, 0, 3, MAX_MATCH);
    assert [2, 1][1..] == [1] && [1][1..] == [];
    assert Best(win', 3, [1], 4, 1, 3).1 == Best(win', 3, [], 4, 1, 3).1;
  }
}

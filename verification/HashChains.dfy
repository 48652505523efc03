/**
 The hash chains of deflate.c: head[] holds the latest string of each hash, prev[] links every
 string to the previous one with the same hash, and prev[] is indexed modulo w_size.  Positions
 in the tables are window indices; `base` is the stream position of window index 0, and
 `inserted` is the set of stream positions that have been entered.
 */
module HashChains {
  import opened Basics
  import opened Lz77
  import opened RollingHash

  /** `p & w_mask` for a window index p. */
  function Slot(w: nat, p: nat): (i: nat)
    requires p < 2 * w
    ensures i < w
  {
    if p < w then p else p - w
  }

  lemma SlotIsRemainder(w: nat, p: nat)
    requires p < 2 * w
    ensures Slot(w, p) == p % w
  {
  }

  /** An inserted string with hash h. */
  ghost predicate Hashed(b: nat, s: seq<byte>, inserted: set<nat>, a: nat, h: nat)
    requires HashBits(b)
  {
    a in inserted && a + MIN_MATCH <= |s| && HashAt(b, s, a) == h
  }

  /**
   e is the latest inserted string below `below` with hash h, or NIL if there is none; a string at
   window index 0 cannot be told from NIL.
   */
  ghost predicate Entry(b: nat, s: seq<byte>, base: nat, inserted: set<nat>, below: nat, e: nat, h: nat)
    requires HashBits(b)
  {
    && (e == 0 || (e < below && Hashed(b, s, inserted, base + e, h)))
    && (forall a :: base + e < a < base + below ==> !Hashed(b, s, inserted, a, h))
  }

  /** p was inserted, and the string that shares its slot in prev[] was not: its link is intact. */
  ghost predicate Live(base: nat, inserted: set<nat>, w: nat, p: nat) {
    0 < p && base + p in inserted && base + p + w !in inserted
  }

  /** The chain invariant, for tables whose inserted strings all lie below `top`. */
  ghost predicate Inv(b: nat, w: nat, s: seq<byte>, base: nat, inserted: set<nat>, top: nat,
                      head: seq<nat>, prev: seq<nat>)
    requires HashBits(b)
  {
    && |head| == Pow2(b) && |prev| == w && top <= 2 * w
    && (forall a :: a in inserted ==> a + MIN_MATCH <= |s| && a < base + top)
    && (forall h :: 0 <= h < |head| ==> Entry(b, s, base, inserted, top, head[h], h))
    && (forall p: nat :: Live(base, inserted, w, p) ==>
          Entry(b, s, base, inserted, p, prev[Slot(w, p)], HashAt(b, s, base + p)))
  }

  /** INSERT_STRING keeps the invariant, although it may overwrite the link of an older string. */
  lemma InsertKeeps(b: nat, w: nat, s: seq<byte>, base: nat, inserted: set<nat>, top: nat,
                    head: seq<nat>, prev: seq<nat>, str: nat)
    requires HashBits(b) && Inv(b, w, s, base, inserted, top, head, prev)
    requires top <= str < 2 * w && base + str + MIN_MATCH <= |s|
    ensures var h := HashAt(b, s, base + str);
      Inv(b, w, s, base, inserted + {base + str}, str + 1,
          head[h := str], prev[Slot(w, str) := head[h]])
  {
    hide HashAt;
    var h := HashAt(b, s, base + str);
    var inserted' := inserted + {base + str};
    var prev' := prev[Slot(w, str) := head[h]];
    assert forall a, k :: Hashed(b, s, inserted', a, k) ==
                          (Hashed(b, s, inserted, a, k) || (a == base + str && k == h));
    forall k | 0 <= k < |head|
      ensures Entry(b, s, base, inserted', str + 1, head[h := str][k], k)
      ensures k == h ==> Entry(b, s, base, inserted', str, head[k], k)
    {
      assert Entry(b, s, base, inserted, top, head[k], k);
    }
    forall p: nat | Live(base, inserted', w, p)
      ensures Entry(b, s, base, inserted', p, prev'[Slot(w, p)], HashAt(b, s, base + p))
    {
      if p < str {
        assert Live(base, inserted, w, p);
        assert Entry(b, s, base, inserted, p, prev[Slot(w, p)], HashAt(b, s, base + p));
      }
    }
  }

  /** The bound may be any that the inserted strings respect. */
  lemma BoundKeeps(b: nat, w: nat, s: seq<byte>, base: nat, inserted: set<nat>, top: nat, top': nat,
                   head: seq<nat>, prev: seq<nat>)
    requires HashBits(b) && Inv(b, w, s, base, inserted, top, head, prev)
    requires top' <= 2 * w && forall a :: a in inserted ==> a < base + top'
    ensures Inv(b, w, s, base, inserted, top', head, prev)
  {
    hide HashAt;
    forall h | 0 <= h < |head|
      ensures Entry(b, s, base, inserted, top', head[h], h)
    {
      assert Entry(b, s, base, inserted, top, head[h], h);
    }
  }

  lemma SkipKeeps(b: nat, w: nat, s: seq<byte>, base: nat, inserted: set<nat>, top: nat, top': nat,
                  head: seq<nat>, prev: seq<nat>)
    requires HashBits(b) && Inv(b, w, s, base, inserted, top, head, prev) && top <= top' <= 2 * w
    ensures Inv(b, w, s, base, inserted, top', head, prev)
  {
    hide HashAt;
    BoundKeeps(b, w, s, base, inserted, top, top', head, prev);
  }

  /** Strings are only inserted whole, so none starts in the last two bytes. */
  lemma LastTwoNotInserted(b: nat, w: nat, s: seq<byte>, base: nat, inserted: set<nat>, top: nat, top': nat,
                           head: seq<nat>, prev: seq<nat>)
    requires HashBits(b) && Inv(b, w, s, base, inserted, top, head, prev)
    requires top' <= 2 * w && |s| <= base + top' + 2
    ensures Inv(b, w, s, base, inserted, top', head, prev)
  {
    hide HashAt;
    BoundKeeps(b, w, s, base, inserted, top, top', head, prev);
  }

  /** A string less than w_size behind the end of the insertions still owns its slot. */
  lemma NearIsLive(b: nat, w: nat, s: seq<byte>, base: nat, inserted: set<nat>, top: nat,
                   head: seq<nat>, prev: seq<nat>, p: nat)
    requires HashBits(b) && Inv(b, w, s, base, inserted, top, head, prev)
    requires 0 < p && base + p in inserted && top <= p + w
    ensures Live(base, inserted, w, p)
  {
    hide HashAt;
  }

  lemma HashAtPrefix(b: nat, s: seq<byte>, s': seq<byte>, a: nat)
    requires HashBits(b) && s <= s' && a + MIN_MATCH <= |s|
    ensures HashAt(b, s, a) == HashAt(b, s', a)
  {
    hide Hash3, Index;
  }

  /** More input does not disturb the chains. */
  lemma GrowKeeps(b: nat, w: nat, s: seq<byte>, s': seq<byte>, base: nat, inserted: set<nat>, top: nat,
                  head: seq<nat>, prev: seq<nat>)
    requires HashBits(b) && Inv(b, w, s, base, inserted, top, head, prev)
    requires s <= s'
    ensures Inv(b, w, s', base, inserted, top, head, prev)
  {
    hide HashAt;
    forall a | a in inserted
      ensures a + MIN_MATCH <= |s'| && HashAt(b, s, a) == HashAt(b, s', a)
    {
      HashAtPrefix(b, s, s', a);
    }
    assert forall a, h :: Hashed(b, s', inserted, a, h) == Hashed(b, s, inserted, a, h);
    forall h | 0 <= h < |head|
      ensures Entry(b, s', base, inserted, top, head[h], h)
    {
      assert Entry(b, s, base, inserted, top, head[h], h);
    }
    forall p: nat | Live(base, inserted, w, p)
      ensures Entry(b, s', base, inserted, p, prev[Slot(w, p)], HashAt(b, s', base + p))
    {
      assert Entry(b, s, base, inserted, p, prev[Slot(w, p)], HashAt(b, s, base + p));
    }
  }

  /** What slide_hash does to one entry. */
  function Slid(w: nat, m: nat): nat {
    if m >= w then m - w else 0
  }

  /** Sliding the window by w_size and every entry with it keeps the invariant. */
  lemma SlideKeeps(b: nat, w: nat, s: seq<byte>, base: nat, inserted: set<nat>, top: nat,
                   head: seq<nat>, prev: seq<nat>, head': seq<nat>, prev': seq<nat>)
    requires HashBits(b) && Inv(b, w, s, base, inserted, top, head, prev)
    requires w <= top
    requires |head'| == |head| && forall h :: 0 <= h < |head| ==> head'[h] == Slid(w, head[h])
    requires |prev'| == |prev| && forall i :: 0 <= i < |prev| ==> prev'[i] == Slid(w, prev[i])
    ensures Inv(b, w, s, base + w, inserted, top - w, head', prev')
  {
    hide HashAt;
    forall h | 0 <= h < |head'|
      ensures Entry(b, s, base + w, inserted, top - w, head'[h], h)
    {
      assert Entry(b, s, base, inserted, top, head[h], h);
      assert base + w + Slid(w, head[h]) == base + head[h] || head'[h] == 0;
    }
    forall p: nat | Live(base + w, inserted, w, p)
      ensures Entry(b, s, base + w, inserted, p, prev'[Slot(w, p)], HashAt(b, s, base + w + p))
    {
      assert base + (p + w) == base + w + p;
      assert Live(base, inserted, w, p + w);
      var e := prev[Slot(w, p)];
      assert Entry(b, s, base, inserted, p + w, e, HashAt(b, s, base + (p + w)));
      assert e >= w ==> base + w + (e - w) == base + e;
    }
  }

  /** CLEAR_HASH forgets all strings; prev[] may hold anything. */
  lemma ClearedIsEmpty(b: nat, w: nat, s: seq<byte>, base: nat, top: nat, head: seq<nat>, prev: seq<nat>)
    requires HashBits(b) && |head| == Pow2(b) && |prev| == w && top <= 2 * w
    requires forall h :: 0 <= h < |head| ==> head[h] == 0
    ensures Inv(b, w, s, base, {}, top, head, prev)
  {
  }

  /** The strings longest_match looks at, starting with `cur`: at most n of them, above `limit`. */
  ghost function Visits(b: nat, w: nat, s: seq<byte>, base: nat, inserted: set<nat>, top: nat,
                        head: seq<nat>, prev: seq<nat>, cur: nat, limit: nat, n: nat): (v: seq<nat>)
    requires HashBits(b) && Inv(b, w, s, base, inserted, top, head, prev)
    requires Live(base, inserted, w, cur) && top <= limit + 1 + w && n >= 1
    ensures v != [] && forall i :: 0 <= i < |v| ==> v[i] <= cur
    decreases n
  {
    hide HashAt;
    var next := prev[Slot(w, cur)];
    assert Entry(b, s, base, inserted, cur, next, HashAt(b, s, base + cur));
    if next > limit && n > 1
    then [cur] + Visits(b, w, s, base, inserted, top, head, prev, next, limit, n - 1)
    else [cur]
  }

  /** p is a live string with the hash of the one at cur, no later than cur and no earlier than limit. */
  ghost predicate Candidate(b: nat, w: nat, s: seq<byte>, base: nat, inserted: set<nat>, top: nat,
                            cur: nat, limit: nat, p: nat)
    requires HashBits(b) && base + cur + MIN_MATCH <= |s|
  {
    && limit <= p <= cur && Live(base, inserted, w, p)
    && base + p + MIN_MATCH <= |s| && HashAt(b, s, base + p) == HashAt(b, s, base + cur)
  }

  /** Everything on a chain has the chain's hash, and the chain only goes back. */
  lemma {:induction false} VisitsSound(b: nat, w: nat, s: seq<byte>, base: nat, inserted: set<nat>, top: nat,
                                       head: seq<nat>, prev: seq<nat>, cur: nat, limit: nat, n: nat)
    requires HashBits(b) && Inv(b, w, s, base, inserted, top, head, prev)
    requires Live(base, inserted, w, cur) && limit <= cur && top <= limit + 1 + w && n >= 1
    ensures var v := Visits(b, w, s, base, inserted, top, head, prev, cur, limit, n);
      && 1 <= |v| <= n
      && (forall i :: 0 <= i < |v| ==> Candidate(b, w, s, base, inserted, top, cur, limit, v[i]))
      && (forall i, j :: 0 <= i < j < |v| ==> v[j] < v[i])
      && v[0] == cur && (forall i :: 0 < i < |v| ==> v[i] > limit)
    decreases n
  {
    hide HashAt;
    var v := Visits(b, w, s, base, inserted, top, head, prev, cur, limit, n);
    var next := prev[Slot(w, cur)];
    assert Entry(b, s, base, inserted, cur, next, HashAt(b, s, base + cur));
    if next > limit && n > 1 {
      var rest := Visits(b, w, s, base, inserted, top, head, prev, next, limit, n - 1);
      VisitsSound(b, w, s, base, inserted, top, head, prev, next, limit, n - 1);
      assert v == [cur] + rest;
      forall i | 0 <= i < |v|
        ensures Candidate(b, w, s, base, inserted, top, cur, limit, v[i])
        ensures 0 < i ==> v[i] < cur
      {
        if i > 0 {
          assert Candidate(b, w, s, base, inserted, top, next, limit, rest[i - 1]);
        }
      }
    }
  }

  /**
   A walk misses nothing: an inserted string with the hash of the one at cur, no later than cur and above
   limit, has been visited, or the walk was cut off at n strings that are all later.
   */
  lemma {:induction false} VisitsComplete(b: nat, w: nat, s: seq<byte>, base: nat, inserted: set<nat>, top: nat,
                                          head: seq<nat>, prev: seq<nat>, cur: nat, limit: nat, n: nat, p: nat)
    requires HashBits(b) && Inv(b, w, s, base, inserted, top, head, prev)
    requires Live(base, inserted, w, cur) && top <= limit + 1 + w && n >= 1
    requires limit < p <= cur && Hashed(b, s, inserted, base + p, HashAt(b, s, base + cur))
    ensures var v := Visits(b, w, s, base, inserted, top, head, prev, cur, limit, n);
      p in v || (|v| == n && p < v[n - 1])
    decreases n
  {
    hide HashAt;
    var next := prev[Slot(w, cur)];
    assert Entry(b, s, base, inserted, cur, next, HashAt(b, s, base + cur));
    if p < cur {
      assert p <= next;
      if n > 1 {
        VisitsComplete(b, w, s, base, inserted, top, head, prev, next, limit, n - 1, p);
      }
    }
  }
}

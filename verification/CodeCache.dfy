/** ssh2/agent.c: the cache of code objects, a sorted array that grows in place. */
module CodeCache {
  import opened Basics

  datatype Entry<T> = Entry(line: int, code: T)

  // ----- Sorted entries and the map they stand for -----

  predicate Sorted<T>(s: seq<Entry<T>>) {
    forall i, j | 0 <= i < j < |s| :: s[i].line < s[j].line
  }

  /** Position p splits the entries at `line`. */
  predicate LowerBound<T>(s: seq<Entry<T>>, line: int, p: nat) {
    && p <= |s|
    && (forall i | 0 <= i < p :: s[i].line < line)
    && (forall i | p <= i < |s| :: s[i].line >= line)
  }

  ghost function MapOf<T>(s: seq<Entry<T>>): map<int, T>
    requires Sorted(s)
  {
    map i | 0 <= i < |s| :: s[i].line := s[i].code
  }

  ghost function Objects<T>(s: seq<Entry<T>>): multiset<T> {
    if s == [] then multiset{} else Objects(s[..|s| - 1]) + multiset{s[|s| - 1].code}
  }

  lemma {:induction false} ObjectsAppend<T>(a: seq<Entry<T>>, b: seq<Entry<T>>)
    ensures Objects(a + b) == Objects(a) + Objects(b)
  {
    if b == [] {
      assert a + b == a;
    } else {
      var front, e := b[..|b| - 1], b[|b| - 1];
      ObjectsAppend(a, front);
      assert (a + b)[..|a + b| - 1] == a + front && (a + b)[|a + b| - 1] == e;
      assert Objects(a + b) == Objects(a + front) + multiset{e.code};
    }
  }

  lemma ObjectsOne<T>(e: Entry<T>)
    ensures Objects([e]) == multiset{e.code}
  {
    assert [e][..0] == [];
    assert Objects<T>([]) == multiset{};
  }

  lemma ObjectsMiddle<T>(a: seq<Entry<T>>, e: Entry<T>, b: seq<Entry<T>>)
    ensures Objects(a + [e] + b) == Objects(a) + multiset{e.code} + Objects(b)
  {
    hide Objects;
    ObjectsAppend(a + [e], b);
    ObjectsAppend(a, [e]);
    ObjectsOne(e);
  }

  /** What an insertion does to the map: line 0 is never cached. */
  ghost function Put<T>(m: map<int, T>, line: int, code: T): map<int, T> {
    if line == 0 then m else m[line := code]
  }

  lemma LookupAt<T>(s: seq<Entry<T>>, line: int, p: nat)
    requires Sorted(s) && LowerBound(s, line, p)
    ensures line in MapOf(s) <==> p < |s| && s[p].line == line
    ensures line in MapOf(s) ==> MapOf(s)[line] == s[p].code
  {
    if line in MapOf(s) {
      var i :| 0 <= i < |s| && s[i].line == line;
      assert forall k | p < k < |s| :: s[p].line < s[k].line;
      assert i >= p;
    }
  }

  /** Membership without positions. */
  lemma MapAt<T>(s: seq<Entry<T>>, i: nat)
    requires Sorted(s) && i < |s|
    ensures s[i].line in MapOf(s) && MapOf(s)[s[i].line] == s[i].code
  {
  }

  lemma MapHas<T>(s: seq<Entry<T>>, line: int) returns (i: nat)
    requires Sorted(s) && line in MapOf(s)
    ensures i < |s| && s[i].line == line
  {
    i :| 0 <= i < |s| && s[i].line == line;
  }

  /** What the cache holds is in order, never has line 0, and is referenced once an entry. */
  ghost predicate Good<T>(s: seq<Entry<T>>, held: multiset<T>) {
    Sorted(s) && 0 !in MapOf(s) && held == Objects(s)
  }

  function With<T>(s: seq<Entry<T>>, p: nat, e: Entry<T>, q: nat): seq<Entry<T>>
    requires p <= q <= |s|
  {
    s[..p] + [e] + s[q..]
  }

  /** The map of the entries once those in p .. q have made room for e. */
  lemma WithMap<T>(s: seq<Entry<T>>, p: nat, e: Entry<T>, q: nat)
    requires Sorted(s) && p <= q <= |s| && q <= p + 1
    requires forall i | 0 <= i < p :: s[i].line < e.line
    requires forall i | q <= i < |s| :: s[i].line > e.line
    requires forall i | p <= i < q :: s[i].line == e.line
    ensures Sorted(With(s, p, e, q)) && MapOf(With(s, p, e, q)) == MapOf(s)[e.line := e.code]
  {
    WithSorted(s, p, e, q);
    var r := With(s, p, e, q);
    var m := MapOf(s)[e.line := e.code];
    hide MapOf, Sorted, With;
    forall k | k in m ensures k in MapOf(r) && MapOf(r)[k] == m[k] {
      if k == e.line {
        MapAt(r, p);
      } else {
        var i := MapHas(s, k);
        MapAt(s, i);
        WithIndex(s, p, e, q, i);
        MapAt(r, if i < p then i else i + 1 - (q - p));
      }
    }
    forall k | k in MapOf(r) ensures k in m {
      var i := MapHas(r, k);
      if i != p {
        var from := if i < p then i else i - 1 + (q - p);
        WithIndex(s, p, e, q, from);
        MapAt(s, from);
      }
    }
    assert MapOf(r).Keys == m.Keys;
  }

  lemma WithIndex<T>(s: seq<Entry<T>>, p: nat, e: Entry<T>, q: nat, i: nat)
    requires p <= q <= |s| && i < |s| && (i < p || q <= i)
    ensures With(s, p, e, q)[if i < p then i else i + 1 - (q - p)] == s[i]
  {
  }

  lemma WithSorted<T>(s: seq<Entry<T>>, p: nat, e: Entry<T>, q: nat)
    requires Sorted(s) && p <= q <= |s|
    requires forall i | 0 <= i < p :: s[i].line < e.line
    requires forall i | q <= i < |s| :: s[i].line > e.line
    ensures Sorted(With(s, p, e, q)) && |With(s, p, e, q)| == |s| + 1 - (q - p) && With(s, p, e, q)[p] == e
  {
    var r := With(s, p, e, q);
    forall i, j | 0 <= i < j < |r| ensures r[i].line < r[j].line {
      assert i < p ==> r[i] == s[i];
      assert j > p ==> r[j] == s[j - 1 + (q - p)];
      assert i > p ==> r[i] == s[i - 1 + (q - p)];
    }
  }

  /** Replacing the object of an entry. */
  lemma Replaced<T>(s: seq<Entry<T>>, held: multiset<T>, p: nat, code: T)
    requires Good(s, held) && p < |s|
    ensures s[p].code in held
    ensures var r := With(s, p, Entry(s[p].line, code), p + 1);
      Good(r, held - multiset{s[p].code} + multiset{code}) && MapOf(r) == MapOf(s)[s[p].line := code]
  {
    hide MapOf, Objects;
    var e := Entry(s[p].line, code);
    MapAt(s, p);
    WithMap(s, p, e, p + 1);
    assert s == s[..p] + [s[p]] + s[p + 1..];
    ObjectsMiddle(s[..p], s[p], s[p + 1..]);
    ObjectsMiddle(s[..p], e, s[p + 1..]);
  }

  /** Opening a gap at the lower bound. */
  lemma Inserted<T>(s: seq<Entry<T>>, held: multiset<T>, p: nat, e: Entry<T>)
    requires Good(s, held) && LowerBound(s, e.line, p) && (p < |s| ==> s[p].line != e.line) && e.line != 0
    ensures var r := With(s, p, e, p);
      Good(r, held + multiset{e.code}) && MapOf(r) == MapOf(s)[e.line := e.code]
  {
    hide MapOf, Objects;
    assert forall i | p < i < |s| :: s[p].line < s[i].line;
    WithMap(s, p, e, p);
    assert s == s[..p] + s[p..];
    ObjectsMiddle(s[..p], e, s[p..]);
    ObjectsAppend(s[..p], s[p..]);
  }

  /** __pyx_bisect_code_objects: the lower bound, although the last comparison uses `mid` and not `start`. */
  method Bisect<T>(entries: array<Entry<T>>, count: nat, line: int) returns (p: nat)
    requires 0 < count <= entries.Length && Sorted(entries[..count])
    ensures LowerBound(entries[..count], line, p)
  {
    ghost var s := entries[..count];
    assert forall i | 0 <= i < count :: s[i] == entries[i];
    var start, mid, end := 0, 0, count - 1;
    if line > entries[end].line {
      return count;
    }
    while start < end
      invariant 0 <= start <= end < count && 0 <= mid < count
      invariant forall i | 0 <= i < start :: s[i].line < line
      invariant s[end].line >= line
      invariant start == end ==> mid == start || (mid == start - 1 && s[mid].line < line)
    {
      mid := start + (end - start) / 2;
      if line < entries[mid].line {
        end := mid;
      } else if line > entries[mid].line {
        start := mid + 1;
      } else {
        return mid;
      }
    }
    if line <= entries[mid].line {
      return mid;
    } else {
      return mid + 1;
    }
  }

  class CodeObjectCache<T> {
    var count: nat
    var maxCount: nat
    var entries: array?<Entry<T>>
    /** The references the cache holds: one more at every Py_INCREF, one less at every Py_DECREF. */
    ghost var held: multiset<T>

    ghost predicate Valid()
      reads this, entries
    {
      && (entries == null ==> count == maxCount == 0)
      && (entries != null ==> 0 < count <= maxCount == entries.Length)
      && maxCount % 64 == 0
      && Good(Live(), held)
    }

    ghost function Live(): seq<Entry<T>>
      reads this, entries
      requires entries != null ==> count <= entries.Length
    {
      if entries == null then [] else entries[..count]
    }

    /** The map the cache stands for. */
    ghost function Contents(): map<int, T>
      reads this, entries
      requires Valid()
    {
      MapOf(Live())
    }

    constructor ()
      ensures Valid() && Contents() == map[] && entries == null
    {
      count, maxCount, entries, held := 0, 0, null, multiset{};
    }

    /** __pyx__find_code_object. */
    method Find(line: int) returns (r: Option<T>)
      requires Valid()
      ensures r == if line in Contents() then Some(Contents()[line]) else None
    {
      if line == 0 || entries == null {
        return None;
      }
      var pos := Bisect(entries, count, line);
      LookupAt(Live(), line, pos);
      if pos >= count || entries[pos].line != line {
        return None;
      }
      r := Some(entries[pos].code);
    }

    /** The insertion is lost: there was no memory for the first array, or for more room for a new line. */
    ghost predicate Dropped(line: int, memory: bool)
      reads this, entries
      requires Valid()
    {
      !memory && (entries == null || (count == maxCount && line !in Contents()))
    }

    /** __pyx__insert_code_object; `memory` says whether an allocation succeeds. */
    method Insert(line: int, code: T, memory: bool)
      requires Valid()
      modifies this, entries
      ensures Valid()
      ensures Contents() == if old(Dropped(line, memory)) then old(Contents()) else Put(old(Contents()), line, code)
      ensures entries == null || entries == old(entries) || fresh(entries)
      ensures maxCount == old(maxCount) || (maxCount == old(maxCount) + 64 && old(count == maxCount))
    {
      hide MapOf, Objects;
      if line == 0 {
        return;
      }
      if entries == null {
        if memory {
          FirstEntry(Entry(line, code));
          First(Entry(line, code));
        }
        return;
      }
      InsertSorted(line, code, memory);
    }

    /** The part for a nonzero line and an array that has been allocated. */
    method InsertSorted(line: int, code: T, memory: bool)
      requires Valid() && entries != null && line != 0
      modifies this, entries
      ensures Valid()
      ensures Contents() == if old(Dropped(line, memory)) then old(Contents()) else old(Contents())[line := code]
      ensures entries == old(entries) || fresh(entries)
      ensures maxCount == old(maxCount) || (maxCount == old(maxCount) + 64 && old(count == maxCount))
    {
      hide MapOf, Objects;
      ghost var s := Live();
      var pos := Bisect(entries, count, line);
      LookupAt(s, line, pos);
      hide Sorted;
      if pos < count && entries[pos].line == line {
        Replaced(s, held, pos, code);
        Replace(pos, code);
        return;
      }
      Inserted(s, held, pos, Entry(line, code));
      hide Good;
      if count == maxCount {
        if !memory {
          return;
        }
        Grow();
      }
      OpenAt(pos, Entry(line, code));
    }

    ghost predicate Shaped()
      reads this, entries
    {
      entries != null && 0 < count <= maxCount == entries.Length
    }

    method First(e: Entry<T>)
      requires entries == null
      modifies this
      ensures Shaped() && fresh(entries) && Live() == [e] && held == old(held) + multiset{e.code}
      ensures maxCount == 64
    {
      entries := new Entry<T>[64](_ => e);
      maxCount := 64;
      count := 1;
      held := held + multiset{e.code};
    }

    method Replace(pos: nat, code: T)
      requires Shaped() && pos < count
      modifies this`held, entries
      ensures Shaped() && Live() == With(old(Live()), pos, Entry(old(entries[pos].line), code), pos + 1)
      ensures held == old(held) - multiset{old(entries[pos].code)} + multiset{code}
    {
      held := held - multiset{entries[pos].code} + multiset{code};
      entries[pos] := Entry(entries[pos].line, code);
      assert Live() == old(Live())[pos := entries[pos]];
    }

    /** PyMem_Realloc with room for 64 more entries. */
    method Grow()
      requires Shaped() && count == maxCount
      modifies this`entries, this`maxCount
      ensures Shaped() && fresh(entries) && Live() == old(Live()) && count < maxCount == old(maxCount) + 64
    {
      var from := entries;
      var filler := from[0];
      var room := new Entry<T>[maxCount + 64](_ => filler);
      var i := 0;
      while i < count
        invariant 0 <= i <= count
        invariant room[..i] == from[..i]
        invariant maxCount == old(maxCount)
      {
        room[i] := from[i];
        i := i + 1;
      }
      maxCount := maxCount + 64;
      entries := room;
    }

    /** Shift the entries from pos on and store the new one. */
    method OpenAt(pos: nat, e: Entry<T>)
      requires Shaped() && count < maxCount && pos <= count
      modifies this`count, this`held, entries
      ensures Shaped() && Live() == With(old(Live()), pos, e, pos)
      ensures held == old(held) + multiset{e.code}
    {
      ghost var s := Live();
      var i := count;
      while i > pos
        invariant pos <= i <= count == old(count) && held == old(held)
        invariant forall k | 0 <= k < i :: entries[k] == s[k]
        invariant forall k | i < k <= count :: entries[k] == s[k - 1]
      {
        entries[i] := entries[i - 1];
        i := i - 1;
      }
      entries[pos] := e;
      count := count + 1;
      held := held + multiset{e.code};
    }
  }

  lemma FirstEntry<T>(e: Entry<T>)
    requires e.line != 0
    ensures Good([e], multiset{e.code}) && MapOf([e]) == map[e.line := e.code]
    ensures forall held: multiset<T> | Good([], held) :: held == multiset{} && MapOf<T>([]) == map[]
  {
    var s := [e];
    ObjectsOne(e);
    assert MapOf(s).Keys == {e.line} by { assert s[0].line == e.line; }
  }

  /**
   What is found before and after an insertion: the new object at its line, unless the line is 0 or memory was
   lacking where it was needed, and what was found before at every other line.
   */
  method FindAround<T>(cache: CodeObjectCache<T>, line: int, code: T, memory: bool, other: int)
    returns (before: Option<T>, after: Option<T>)
    requires cache.Valid()
    modifies cache, cache.entries
    ensures cache.Valid()
    ensures line == 0 || other != line ==> after == before
    ensures other == line != 0 ==>
      if !memory && (old(cache.entries == null) || (before.None? && old(cache.count == cache.maxCount)))
      then after == before
      else after == Some(code)
  {
    hide MapOf, Good;
    before := cache.Find(other);
    cache.Insert(line, code, memory);
    after := cache.Find(other);
    LineZero(cache);
  }

  lemma LineZero<T>(cache: CodeObjectCache<T>)
    requires cache.Valid()
    ensures 0 !in cache.Contents()
  {
  }

  // ----- Whole runs -----

  datatype Call<T> = Finding(line: int) | Inserting(line: int, code: T, memory: bool)

  /** The map after one more call, of which nothing is left if it was dropped. */
  ghost function Next<T>(m: map<int, T>, call: Call<T>, dropped: bool): map<int, T> {
    if call.Inserting? && !dropped then Put(m, call.line, call.code) else m
  }

  /** What a map answers. */
  ghost function Reply<T>(m: map<int, T>, call: Call<T>): Option<T> {
    if call.Finding? && call.line in m then Some(m[call.line]) else None
  }

  /** The map after the calls. */
  ghost function Model<T>(calls: seq<Call<T>>, dropped: seq<bool>): map<int, T>
    requires |calls| == |dropped|
  {
    if calls == [] then map[]
    else
      var n := |calls| - 1;
      Next(Model(calls[..n], dropped[..n]), calls[n], dropped[n])
  }

  method Apply<T>(cache: CodeObjectCache<T>, call: Call<T>) returns (answer: Option<T>, ghost dropped: bool)
    requires cache.Valid()
    modifies cache, cache.entries
    ensures cache.Valid() && cache.Contents() == Next(old(cache.Contents()), call, dropped)
    ensures answer == Reply(old(cache.Contents()), call)
    ensures dropped ==> call.Inserting? && !call.memory
    ensures cache.entries == null || cache.entries == old(cache.entries) || fresh(cache.entries)
  {
    hide MapOf, Good, CodeObjectCache.Contents;
    match call {
      case Finding(line) =>
        dropped := false;
        answer := cache.Find(line);
      case Inserting(line, code, memory) =>
        dropped := cache.Dropped(line, memory);
        cache.Insert(line, code, memory);
        answer := None;
    }
  }

  /** Every run from the empty cache answers as a map from nonzero lines, apart from the dropped insertions. */
  method Replay<T>(calls: seq<Call<T>>)
    returns (answers: seq<Option<T>>, cache: CodeObjectCache<T>, ghost dropped: seq<bool>)
    ensures |answers| == |dropped| == |calls| && cache.Valid() && cache.Contents() == Model(calls, dropped)
    ensures forall i | 0 <= i < |calls| :: answers[i] == Reply(Model(calls[..i], dropped[..i]), calls[i])
    ensures forall i | 0 <= i < |calls| && dropped[i] :: calls[i].Inserting? && !calls[i].memory
  {
    hide CodeObjectCache.Valid, CodeObjectCache.Contents, Reply, Next;
    cache := new CodeObjectCache<T>();
    answers, dropped := [], [];
    for i := 0 to |calls|
      invariant fresh(cache) && (cache.entries != null ==> fresh(cache.entries)) && cache.Valid()
      invariant |answers| == |dropped| == i && cache.Contents() == Model(calls[..i], dropped)
      invariant forall k | 0 <= k < i :: answers[k] == Reply(Model(calls[..k], dropped[..k]), calls[k])
      invariant forall k | 0 <= k < i && dropped[k] :: calls[k].Inserting? && !calls[k].memory
    {
      var answer, lost := Apply(cache, calls[i]);
      Extend(calls, dropped, lost, i);
      answers, dropped := answers + [answer], dropped + [lost];
    }
    assert calls[..|calls|] == calls;
  }

  lemma Extend<T>(calls: seq<Call<T>>, dropped: seq<bool>, lost: bool, i: nat)
    requires i == |dropped| < |calls|
    ensures Model(calls[..i + 1], dropped + [lost]) == Next(Model(calls[..i], dropped), calls[i], lost)
    ensures forall k | 0 <= k <= i :: (dropped + [lost])[..k] == dropped[..k]
    ensures dropped[..i] == dropped
  {
    var d := dropped + [lost];
    assert calls[..i + 1][..i] == calls[..i] && d[..i] == dropped;
  }
}

/** ssh2/agent.c: accessor_count, one 32-bit word that keeps readers and a writer of the cache apart. */
module Accessors {
  const INT_MIN: int := -0x8000_0000

  const UINT_RANGE: int := 0x1_0000_0000

  /** A 32-bit two's complement value. */
  function Wrap(x: int): int { (x - INT_MIN) % UINT_RANGE + INT_MIN }

  /** Where a thread is: in the table as a reader, about to leave after being refused, or in the table as the writer. */
  datatype Pc = Idle | Reading | Refused | Writing

  datatype State = State(count: int, pc: seq<Pc>)

  /** A thread takes its next step; when idle, it starts a find or an insert. */
  datatype Event = Event(thread: nat, inserts: bool)

  function Step(s: State, e: Event): (r: State)
    ensures |r.pc| == |s.pc|
  {
    if e.thread >= |s.pc| then s
    else
      match s.pc[e.thread]
      case Idle =>
        if e.inserts then
          (if s.count == 0 then State(INT_MIN, s.pc[e.thread := Writing]) else s)
        else
          State(Wrap(s.count + 1), s.pc[e.thread := if s.count < 0 then Refused else Reading])
      case Writing => State(Wrap(s.count - INT_MIN), s.pc[e.thread := Idle])
      case _ => State(Wrap(s.count - 1), s.pc[e.thread := Idle])
  }

  function Run(s: State, events: seq<Event>): (r: State)
    ensures |r.pc| == |s.pc|
  {
    if events == [] then s else Step(Run(s, events[..|events| - 1]), events[|events| - 1])
  }

  function Start(threads: nat): State { State(0, seq(threads, _ => Idle)) }

  /** Nobody is in the table beside a writer. */
  ghost predicate Exclusive(s: State) {
    forall t, u | 0 <= t < |s.pc| && 0 <= u < |s.pc| && s.pc[t] == Writing ::
      s.pc[u] != Reading && (s.pc[u] == Writing ==> t == u)
  }

  // ----- Counting -----

  function Counts(p: Pc, q: Pc): nat { if p == q then 1 else 0 }

  function Count(pc: seq<Pc>, q: Pc): nat {
    if pc == [] then 0 else Counts(pc[|pc| - 1], q) + Count(pc[..|pc| - 1], q)
  }

  /** Readers in the table and refused readers still to leave. */
  function Accessing(pc: seq<Pc>): nat { Count(pc, Reading) + Count(pc, Refused) }

  lemma {:induction false} CountUpdate(pc: seq<Pc>, t: nat, p: Pc, q: Pc)
    requires t < |pc|
    ensures Count(pc[t := p], q) == Count(pc, q) - Counts(pc[t], q) + Counts(p, q)
  {
    var n := |pc| - 1;
    if t == n {
      assert pc[t := p][..n] == pc[..n];
    } else {
      CountUpdate(pc[..n], t, p, q);
      assert pc[t := p][..n] == pc[..n][t := p];
    }
  }

  lemma {:induction false} CountTotal(pc: seq<Pc>)
    ensures Count(pc, Idle) + Count(pc, Reading) + Count(pc, Refused) + Count(pc, Writing) == |pc|
  {
    if pc != [] {
      CountTotal(pc[..|pc| - 1]);
    }
  }

  lemma {:induction false} CountPositive(pc: seq<Pc>, t: nat)
    requires t < |pc|
    ensures Count(pc, pc[t]) >= 1
  {
    if t < |pc| - 1 {
      CountPositive(pc[..|pc| - 1], t);
    }
  }

  lemma {:induction false} CountTwo(pc: seq<Pc>, t: nat, u: nat)
    requires t < u < |pc| && pc[t] == pc[u]
    ensures Count(pc, pc[t]) >= 2
  {
    if u < |pc| - 1 {
      CountTwo(pc[..|pc| - 1], t, u);
    } else {
      CountPositive(pc[..|pc| - 1], t);
    }
  }

  lemma {:induction false} CountNone(threads: nat, q: Pc)
    requires q != Idle
    ensures Count(seq(threads, _ => Idle), q) == 0
  {
    var pc := seq(threads, _ => Idle);
    if threads > 0 {
      CountNone(threads - 1, q);
      assert pc[..threads - 1] == seq(threads - 1, _ => Idle);
    }
  }

  // ----- The invariant -----

  /** The most threads for which the word is wide enough. */
  const LIMIT: int := 0x8000_0001

  /** The word is the number of accessors, less 2^31 while there is a writer. */
  ghost predicate Inv(s: State) {
    && s.count == Wrap(Accessing(s.pc) + INT_MIN * Count(s.pc, Writing))
    && Count(s.pc, Writing) <= 1
    && (Count(s.pc, Writing) == 1 ==> Count(s.pc, Reading) == 0)
  }

  lemma InvIsExclusive(s: State)
    requires Inv(s)
    ensures Exclusive(s)
  {
    forall t, u | 0 <= t < |s.pc| && 0 <= u < |s.pc| && s.pc[t] == Writing
      ensures s.pc[u] != Reading && (s.pc[u] == Writing ==> t == u)
    {
      CountPositive(s.pc, t);
      CountPositive(s.pc, u);
      if s.pc[u] == Writing && t != u {
        CountTwo(s.pc, if t < u then t else u, if t < u then u else t);
      }
    }
  }

  /** Adding inside or outside the wrap is the same. */
  lemma WrapAdd(x: int, y: int)
    ensures Wrap(Wrap(x) + y) == Wrap(x + y)
  {
    var k := (x - INT_MIN) / UINT_RANGE;
    assert Wrap(x) == x - k * UINT_RANGE;
    assert Wrap(x) + y - INT_MIN == (x + y - INT_MIN) - k * UINT_RANGE;
  }

  lemma StepKeepsInv(s: State, e: Event)
    requires Inv(s) && |s.pc| <= LIMIT
    ensures Inv(Step(s, e))
  {
    hide Wrap, Count;
    var t := e.thread;
    if t < |s.pc| {
      CountTotal(s.pc);
      CountPositive(s.pc, t);
      var a, w := Accessing(s.pc), Count(s.pc, Writing);
      var p := if s.pc[t] != Idle then Idle
               else if e.inserts then Writing
               else if s.count < 0 then Refused
               else Reading;
      CountUpdate(s.pc, t, p, Reading);
      CountUpdate(s.pc, t, p, Refused);
      CountUpdate(s.pc, t, p, Writing);
      WrapAdd(a + INT_MIN * w, 1);
      WrapAdd(a + INT_MIN * w, -1);
      WrapAdd(a + INT_MIN * w, -INT_MIN);
      IdleReads(a, w);
    }
  }

  /** What an idle thread reads off the word. */
  lemma IdleReads(a: nat, w: nat)
    requires w <= 1
    ensures a + w < LIMIT && Wrap(a + INT_MIN * w) == 0 ==> a == 0 && w == 0
    ensures a + w < LIMIT && w == 1 ==> Wrap(a + INT_MIN * w) < 0
    ensures Wrap(INT_MIN) == INT_MIN
  {
  }

  lemma {:induction false} RunKeepsInv(threads: nat, events: seq<Event>)
    requires threads <= LIMIT
    ensures Inv(Run(Start(threads), events))
  {
    hide Wrap, Step;
    if events == [] {
      CountNone(threads, Reading);
      CountNone(threads, Refused);
      CountNone(threads, Writing);
      IdleReads(0, 0);
      assert Wrap(0) == 0 by { WrapZero(); }
    } else {
      RunKeepsInv(threads, events[..|events| - 1]);
      StepKeepsInv(Run(Start(threads), events[..|events| - 1]), events[|events| - 1]);
    }
  }

  lemma WrapZero()
    ensures Wrap(0) == 0
  {
  }

  /** The writer's release leaves the number of refused readers still to leave. */
  lemma ReleaseRestores(threads: nat, events: seq<Event>, e: Event)
    requires threads < LIMIT
    ensures var s := Run(Start(threads), events);
      e.thread < threads && s.pc[e.thread] == Writing ==> Step(s, e).count == Count(Step(s, e).pc, Refused)
  {
    hide Step, Inv, Wrap, Count;
    var s := Run(Start(threads), events);
    RunKeepsInv(threads, events);
    if e.thread < threads && s.pc[e.thread] == Writing {
      ReleaseFrom(s, e);
    }
  }

  lemma ReleaseFrom(s: State, e: Event)
    requires Inv(s) && e.thread < |s.pc| < LIMIT && s.pc[e.thread] == Writing
    ensures Step(s, e).count == Count(Step(s, e).pc, Refused)
  {
    hide Wrap, Count;
    var t := e.thread;
    var r := Step(s, e);
    CountPositive(s.pc, t);
    CountPositive(r.pc, t);
    CountUpdate(s.pc, t, Idle, Reading);
    CountUpdate(s.pc, t, Idle, Refused);
    CountUpdate(s.pc, t, Idle, Writing);
    CountTotal(r.pc);
    var a := Accessing(s.pc);
    assert s.count == Wrap(a + INT_MIN);
    WrapAdd(a + INT_MIN, -INT_MIN);
    WrapSmall(a);
  }

  lemma WrapSmall(x: nat)
    requires x < 0x8000_0000
    ensures Wrap(x) == x
  {
  }

  // ----- Beyond the limit -----

  /** Thread 0 starts to insert, then the next n threads start to find. */
  function Crowd(n: nat): seq<Event> {
    if n == 0 then [Event(0, true)] else Crowd(n - 1) + [Event(n, false)]
  }

  lemma WrapNegative(x: int)
    requires INT_MIN <= x <= 0
    ensures Wrap(x) == x
  {
  }

  lemma {:induction false} CrowdFills(threads: nat, n: nat)
    requires n < threads && n <= 0x8000_0000
    ensures var s := Run(Start(threads), Crowd(n));
      && s.count == INT_MIN + n
      && s.pc[0] == Writing && forall t | n < t < threads :: s.pc[t] == Idle
  {
    if n == 0 {
      assert Crowd(0)[..0] == [];
      assert Run(Start(threads), []) == Start(threads);
    } else {
      CrowdFills(threads, n - 1);
      assert Crowd(n)[..|Crowd(n)| - 1] == Crowd(n - 1);
      var s := Run(Start(threads), Crowd(n - 1));
      assert Run(Start(threads), Crowd(n)) == Step(s, Event(n, false));
      hide Run, Crowd;
      WrapNegative(s.count + 1);
    }
  }

  /** With more threads, 2^31 refused readers bring the word back to zero and the next reader walks in. */
  lemma BeyondLimit(threads: nat)
    requires threads > LIMIT
    ensures !Exclusive(Run(Start(threads), Crowd(0x8000_0000) + [Event(0x8000_0001, false)]))
  {
    var events := Crowd(0x8000_0000);
    CrowdFills(threads, 0x8000_0000);
    var s := Run(Start(threads), events);
    var last := Event(0x8000_0001, false);
    assert (events + [last])[..|events + [last]| - 1] == events;
    assert Step(s, last).pc[0] == Writing && Step(s, last).pc[0x8000_0001] == Reading;
  }

  /**
   No interleaving puts a reader or a second writer beside a writer, if and only if there are at most 2^31 +
   1 threads.
   */
  lemma ExclusiveExactly(threads: nat)
    ensures (forall events :: Exclusive(Run(Start(threads), events))) <==> threads <= LIMIT
  {
    if threads <= LIMIT {
      forall events ensures Exclusive(Run(Start(threads), events)) {
        RunKeepsInv(threads, events);
        InvIsExclusive(Run(Start(threads), events));
      }
    } else {
      BeyondLimit(threads);
    }
  }
}

/** crc32.c: once() as a state machine, any number of threads, one atomic access to a step. */
module Once {
  type Thread = nat

  /** Where a thread is in once(); Testing2 is only reached when test-and-set is not atomic. */
  datatype Pc = Outside | Loading | Testing | Testing2(was: bool) | Spinning | Running | Storing

  /** The two flags, counts of what init() and the callers have done, and every thread's position. */
  datatype State = State(begun: bool, done: bool, started: nat, finished: nat, returned: nat, pc: map<Thread, Pc>)

  const START: State := State(false, false, 0, 0, 0, map[])

  function At(s: State, t: Thread): Pc {
    if t in s.pc then s.pc[t] else Outside
  }

  function Go(s: State, t: Thread, pc: Pc): State { s.(pc := s.pc[t := pc]) }

  function Return(s: State, t: Thread): State { Go(s, t, Outside).(returned := s.returned + 1) }

  /** After the test-and-set that found `was`. */
  function Decide(s: State, t: Thread, was: bool): State {
    if was then Go(s, t, Spinning) else Go(s, t, Running).(started := s.started + 1)
  }

  /** The next step of thread t. */
  function Step(atomic: bool, s: State, t: Thread): State {
    match At(s, t)
    case Outside => Go(s, t, Loading)
    case Loading => if s.done then Return(s, t) else Go(s, t, Testing)
    case Testing => if atomic then Decide(s, t, s.begun).(begun := true) else Go(s, t, Testing2(s.begun))
    case Testing2(was) => Decide(s, t, was).(begun := true)
    case Spinning => if s.done then Return(s, t) else s
    case Running => Go(s, t, Storing).(finished := s.finished + 1)
    case Storing => Return(s, t).(done := true)
  }

  /** The state after the threads have run in the order of the schedule. */
  function Run(atomic: bool, s: State, schedule: seq<Thread>): State {
    if schedule == [] then s
    else Step(atomic, Run(atomic, s, schedule[..|schedule| - 1]), schedule[|schedule| - 1])
  }

  /** Thread t is the one that found the flag clear. */
  predicate Owns(s: State, t: Thread) { At(s, t).Running? || At(s, t).Storing? }

  ghost predicate Inv(s: State) {
    && s.started == (if s.begun then 1 else 0)
    && s.finished <= s.started
    && (s.done || s.returned > 0 ==> s.finished == 1)
    && (forall t, u | Owns(s, t) && Owns(s, u) :: t == u)
    && (forall t | Owns(s, t) :: s.begun && !s.done && s.finished == (if At(s, t).Running? then 0 else 1))
    && (forall t | At(s, t).Spinning? :: s.begun)
    && (forall t :: !At(s, t).Testing2?)
    && (s.begun && !s.done ==> exists t :: Owns(s, t))
  }

  lemma StepKeepsInv(s: State, t: Thread)
    requires Inv(s)
    ensures Inv(Step(true, s, t))
  {
    var r := Step(true, s, t);
    assert forall u | u != t :: At(r, u) == At(s, u) && Owns(r, u) == Owns(s, u);
    if Owns(r, t) && !Owns(s, t) {
      assert !s.begun;
    }
    forall u | Owns(r, u)
      ensures r.begun && !r.done && r.finished == (if At(r, u).Running? then 0 else 1)
      ensures Owns(r, t) ==> u == t
    {
      if u != t {
        assert Owns(s, u);
        assert !Owns(s, t);
      }
    }
    if r.begun && !r.done {
      if At(s, t).Testing? && !s.begun {
        assert Owns(r, t);
      } else {
        var owner :| Owns(s, owner);
        assert Owns(r, owner);
      }
    }
  }

  lemma {:induction false} RunKeepsInv(s: State, schedule: seq<Thread>)
    requires Inv(s)
    ensures Inv(Run(true, s, schedule))
  {
    if schedule != [] {
      RunKeepsInv(s, schedule[..|schedule| - 1]);
      StepKeepsInv(Run(true, s, schedule[..|schedule| - 1]), schedule[|schedule| - 1]);
    }
  }

  /** init() runs at most once, and never beside itself, in every interleaving. */
  lemma InitAtMostOnce(schedule: seq<Thread>)
    ensures Run(true, START, schedule).started <= 1
    ensures forall t, u | Owns(Run(true, START, schedule), t) && Owns(Run(true, START, schedule), u) :: t == u
  {
    RunKeepsInv(START, schedule);
  }

  /** A step that returns from once() is taken only after init() has completed, once. */
  lemma NoEarlyReturn(schedule: seq<Thread>, t: Thread)
    ensures var s := Run(true, START, schedule);
      Step(true, s, t).returned > s.returned ==> s.started == 1 && s.finished == 1
  {
    RunKeepsInv(START, schedule);
  }

  // ----- No call is stuck -----

  lemma {:induction false} RunAppend(atomic: bool, s: State, a: seq<Thread>, b: seq<Thread>)
    ensures Run(atomic, s, a + b) == Run(atomic, Run(atomic, s, a), b)
  {
    if b == [] {
      assert a + b == a;
    } else {
      RunAppend(atomic, s, a, b[..|b| - 1]);
      assert (a + b)[..|a + b| - 1] == a + b[..|b| - 1];
    }
  }

  lemma RunOne(atomic: bool, s: State, t: Thread)
    ensures Run(atomic, s, [t]) == Step(atomic, s, t)
  {
    assert [t][..0] == [];
    assert Run(atomic, s, []) == s;
  }

  /** How far thread t is from returning when nothing is in its way. */
  function Distance(s: State, t: Thread): nat {
    match At(s, t)
    case Outside => 0
    case Loading => if s.done then 1 else 4
    case Testing => if s.begun then 2 else 3
    case Testing2(_) => 3
    case Spinning => 1
    case Running => 2
    case Storing => 1
  }

  /** The owner alone brings the flag up. */
  lemma OwnerFinishes(s: State) returns (more: seq<Thread>)
    requires Inv(s) && s.begun
    ensures var r := Run(true, s, more); r.done && forall t :: At(r, t) == At(s, t) || At(r, t) == Outside
  {
    if s.done {
      more := [];
    } else {
      var owner :| Owns(s, owner);
      var r := Step(true, s, owner);
      RunOne(true, s, owner);
      if At(s, owner).Storing? {
        more := [owner];
      } else {
        more := [owner] + [owner];
        RunAppend(true, s, [owner], [owner]);
        RunOne(true, r, owner);
      }
    }
  }

  /** From every reachable state, every call can still return. */
  lemma {:induction false} CallsReturn(s: State, t: Thread) returns (more: seq<Thread>)
    requires Inv(s)
    ensures At(Run(true, s, more), t) == Outside
    decreases Distance(s, t)
  {
    if At(s, t) == Outside {
      more := [];
    } else if At(s, t) == Spinning {
      var first := OwnerFinishes(s);
      var r := Run(true, s, first);
      RunAppend(true, s, first, [t]);
      RunOne(true, r, t);
      more := if At(r, t) == Outside then first else first + [t];
    } else {
      var r := Step(true, s, t);
      StepKeepsInv(s, t);
      var rest := CallsReturn(r, t);
      RunOne(true, s, t);
      RunAppend(true, s, [t], rest);
      more := [t] + rest;
    }
  }

  lemma ReachableCallsReturn(schedule: seq<Thread>, t: Thread)
    ensures exists more :: At(Run(true, START, schedule + more), t) == Outside
  {
    RunKeepsInv(START, schedule);
    var more := CallsReturn(Run(true, START, schedule), t);
    RunAppend(true, START, schedule, more);
  }

  // ----- Without atomics -----

  lemma RunPush(s: State, a: seq<Thread>, t: Thread)
    ensures Run(false, s, a + [t]) == Step(false, Run(false, s, a), t)
  {
    assert (a + [t])[..|a|] == a;
  }

  lemma RunTwo(s: State, a: seq<Thread>, t: Thread, u: Thread)
    ensures Run(false, s, a + [t, u]) == Step(false, Step(false, Run(false, s, a), t), u)
  {
    hide Run, Step;
    assert a + [t, u] == a + [t] + [u];
    RunPush(s, a, t);
    RunPush(s, a + [t], u);
  }

  /** Two newcomers that run in step both find the flag down. */
  lemma BothStart(s: State, t: Thread, u: Thread)
    requires t != u && At(s, t) == Outside && At(s, u) == Outside && !s.begun && !s.done
    ensures Run(false, s, [t, u] + [t, u] + [t, u] + [t, u]).started == s.started + 2
  {
    var s2 := Step(false, Step(false, s, t), u);
    var s4 := Step(false, Step(false, s2, t), u);
    var s6 := Step(false, Step(false, s4, t), u);
    var s8 := Step(false, Step(false, s6, t), u);
    assert s8.started == s.started + 2;
    hide Step;
    assert Run(false, s, []) == s;
    hide Run;
    assert [] + [t, u] == [t, u];
    RunTwo(s, [], t, u);
    RunTwo(s, [t, u], t, u);
    RunTwo(s, [t, u] + [t, u], t, u);
    RunTwo(s, [t, u] + [t, u] + [t, u], t, u);
  }

  /** When test-and-set is a read and then a write, two threads can both run init(). */
  lemma NotThreadSafe()
    ensures Run(false, START, [0, 1] + [0, 1] + [0, 1] + [0, 1]).started == 2
  {
    BothStart(START, 0, 1);
  }

  /** Every thread of the schedule is one of n. */
  predicate Among(schedule: seq<Thread>, n: nat) { forall i :: 0 <= i < |schedule| ==> schedule[i] < n }

  /** Only thread t has ever called. */
  ghost predicate Solo(s: State, t: Thread) {
    && (forall u | u != t :: At(s, u) == Outside)
    && s.started == (if s.begun then 1 else 0)
    && (s.returned > 0 ==> s.done)
    && (s.done ==> s.begun && (At(s, t) == Outside || At(s, t) == Loading))
    && (At(s, t) == Testing || At(s, t).Testing2? ==> !s.begun)
    && (At(s, t).Testing2? ==> !At(s, t).was)
    && (Owns(s, t) ==> s.begun)
    && At(s, t) != Spinning
    && (s.begun && !s.done ==> Owns(s, t))
  }

  lemma {:induction false} SoloRun(schedule: seq<Thread>, t: Thread)
    requires forall i :: 0 <= i < |schedule| ==> schedule[i] == t
    ensures Solo(Run(false, START, schedule), t)
  {
    if schedule != [] {
      var before := schedule[..|schedule| - 1];
      SoloRun(before, t);
      var s := Run(false, START, before);
      assert forall u | u != t :: At(Step(false, s, t), u) == At(s, u);
    }
  }

  /** Without atomics init() runs at most once in every interleaving if and only if there is one thread at most. */
  lemma AtMostOnceExactly(n: nat)
    ensures (forall schedule | Among(schedule, n) :: Run(false, START, schedule).started <= 1) <==> n <= 1
  {
    if n <= 1 {
      forall schedule | Among(schedule, n)
        ensures Run(false, START, schedule).started <= 1
      {
        SoloRun(schedule, 0);
      }
    } else {
      NotThreadSafe();
      assert Among([0, 1] + [0, 1] + [0, 1] + [0, 1], n);
    }
  }

  /** What every run without atomics keeps: as long as the flag is down, nobody has got past it. */
  ghost predicate Plain(s: State) {
    && (s.begun <==> s.started > 0) && (s.done ==> s.begun)
    && (forall t | Owns(s, t) || At(s, t) == Spinning || At(s, t) == Testing2(true) :: s.begun)
  }

  lemma PlainStep(s: State, t: Thread)
    requires Plain(s)
    ensures Plain(Step(false, s, t))
  {
    var r := Step(false, s, t);
    assert forall u | u != t :: At(r, u) == At(s, u) && Owns(r, u) == Owns(s, u);
  }

  lemma {:induction false} PlainRun(schedule: seq<Thread>)
    ensures Plain(Run(false, START, schedule))
  {
    if schedule != [] {
      PlainRun(schedule[..|schedule| - 1]);
      PlainStep(Run(false, START, schedule[..|schedule| - 1]), schedule[|schedule| - 1]);
    }
  }

  /** The initialiser has been started once, and nobody is left who could start it again. */
  ghost predicate Decided(s: State) {
    s.begun && s.started <= 1 && forall t :: At(s, t) != Testing2(false)
  }

  lemma {:induction false} DecidedRun(s: State, schedule: seq<Thread>)
    requires Decided(s)
    ensures Decided(Run(false, s, schedule)) && Run(false, s, schedule).started == s.started
  {
    if schedule != [] {
      DecidedRun(s, schedule[..|schedule| - 1]);
      var b, t := Run(false, s, schedule[..|schedule| - 1]), schedule[|schedule| - 1];
      assert forall u | u != t :: At(Step(false, b, t), u) == At(b, u);
    }
  }

  /** Threads that have never called are always to be had. */
  lemma Newcomers(s: State) returns (t: Thread, u: Thread)
    ensures t != u && At(s, t) == Outside && At(s, u) == Outside
  {
    t := Beyond(s.pc.Keys);
    u := Beyond(s.pc.Keys + {t});
  }

  lemma {:induction false} Beyond(threads: set<Thread>) returns (t: Thread)
    ensures t !in threads && forall u | u in threads :: u < t
    decreases threads
  {
    if threads == {} {
      t := 0;
    } else {
      var u :| u in threads;
      var v := Beyond(threads - {u});
      assert forall w | w in threads :: w == u || w in threads - {u};
      t := if u < v then v else u + 1;
    }
  }

  /**
   Without atomics, from a reachable state on: init() is never started a second time, whatever happens,
   if and only if it has been started once and no thread stands between its read and its write of the flag
   after having read it down.
   */
  lemma SafeExactly(past: seq<Thread>)
    ensures var s := Run(false, START, past);
      (forall future :: Run(false, s, future).started <= 1) <==> Decided(s)
  {
    var s := Run(false, START, past);
    PlainRun(past);
    if Decided(s) {
      forall future
        ensures Run(false, s, future).started <= 1
      {
        DecidedRun(s, future);
      }
    } else if !s.begun {
      var t, u := Newcomers(s);
      BothStart(s, t, u);
    } else if s.started <= 1 {
      var t :| At(s, t) == Testing2(false);
      RunOne(false, s, t);
      assert Run(false, s, [t]).started == 2;
    } else {
      assert Run(false, s, []).started > 1;
    }
  }

  /** The remedy of the comment: one call that returns before any other thread starts decides the matter. */
  lemma SafeAfterFirstReturn(n: nat, t: Thread, future: seq<Thread>)
    requires Run(false, START, seq(n, _ => t)).returned > 0
    ensures Run(false, START, seq(n, _ => t) + future).started == 1
  {
    var past := seq(n, _ => t);
    SoloRun(past, t);
    DecidedRun(Run(false, START, past), future);
    RunAppend(false, START, past, future);
  }
}

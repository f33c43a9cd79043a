/** The global count of parallel reader threads, taken by initialize and given back by
    deinitialize under one mutex. */
module ThreadBudget {
  import ParallelScan

  const MAX_PARALLEL_READ_THREADS := 256

  /** A handler's m_worker_count outlives deinitialize, which does not clear it. */
  datatype Handler = Handler(live: bool, workers: int)

  datatype State = State(running: int, handlers: seq<Handler>)

  datatype Event =
    | Initialise(h: nat, expectedDop: nat, sessionDop: int, globalDop: int)
    | Deinitialise(h: nat)

  function Wanted(expectedDop: nat, sessionDop: int, globalDop: int): int
  {
    var w := if expectedDop != 0
             then if expectedDop > MAX_PARALLEL_READ_THREADS then MAX_PARALLEL_READ_THREADS else expectedDop
             else sessionDop;
    if w > globalDop then globalDop else w
  }

  function Step(s: State, e: Event): State
    requires e.h < |s.handlers|
  {
    match e
    case Initialise(h, expected, session, global) =>
      var w := Wanted(expected, session, global);
      if w + s.running > global then s.(handlers := s.handlers[h := Handler(true, 0)])
      else State(s.running + w, s.handlers[h := Handler(true, w)])
    case Deinitialise(h) =>
      State(s.running - s.handlers[h].workers, s.handlers[h := s.handlers[h].(live := false)])
  }

  function Min(a: int, b: int): int { if a <= b then a else b }

  /** A handler gets the threads that the caller expects, at most 256, or else those of its
      session, within the global limit in both cases: all of them if so many are left, which
      is always so when no thread is running, and none otherwise. */
  lemma Granted(s: State, h: nat, expectedDop: nat, sessionDop: int, globalDop: int)
    requires h < |s.handlers|
    ensures var s' := Step(s, Initialise(h, expectedDop, sessionDop, globalDop));
            var got := s'.handlers[h].workers;
            && s'.running == s.running + got && s'.handlers[h].live
            && (forall k :: 0 <= k < |s.handlers| && k != h ==> s'.handlers[k] == s.handlers[k])
            && (expectedDop > 0 ==>
                  got == if Min(Min(expectedDop, 256), globalDop) <= globalDop - s.running
                         then Min(Min(expectedDop, 256), globalDop) else 0)
            && (expectedDop == 0 ==>
                  got == if Min(sessionDop, globalDop) <= globalDop - s.running then Min(sessionDop, globalDop) else 0)
            && (s.running == 0 && expectedDop > 0 ==> got == Min(Min(expectedDop, 256), globalDop))
  {
  }

  /** initialize and deinitialize alternate on each handler, and the system variables have
      their declared minimum of 1. */
  predicate Paired(s: State, e: Event)
  {
    && e.h < |s.handlers|
    && (e.Initialise? ==> !s.handlers[e.h].live && e.sessionDop >= 1 && e.globalDop >= 1)
    && (e.Deinitialise? ==> s.handlers[e.h].live)
  }

  ghost predicate Run(s: State, es: seq<Event>, cap: int, s': State)
    decreases |es|
  {
    if es == [] then s' == s
    else
      && Paired(s, es[0]) && (es[0].Initialise? ==> es[0].globalDop <= cap)
      && Run(Step(s, es[0]), es[1..], cap, s')
  }

  function Held(h: Handler): int { if h.live then h.workers else 0 }

  ghost function TotalHeld(s: State): int { ParallelScan.Sum(s.handlers, Held) }

  predicate NonNegative(s: State) { forall h :: 0 <= h < |s.handlers| ==> s.handlers[h].workers >= 0 }

  /** Over every paired run: the count is what the live handlers hold, and it never exceeds
      the largest global limit that was in force. */
  lemma {:induction false} BudgetKept(s: State, es: seq<Event>, cap: int, s': State)
    requires s.running == TotalHeld(s) <= cap && NonNegative(s) && Run(s, es, cap, s')
    ensures 0 <= s'.running == TotalHeld(s') <= cap && NonNegative(s')
    decreases |es|
  {
    if es == [] {
      if s.handlers != [] { ParallelScan.SumNonneg(s.handlers, Held, 0); }
    } else {
      var s1, h := Step(s, es[0]), es[0].h;
      ParallelScan.SumUpdate(s.handlers, h, s1.handlers[h], Held);
      BudgetKept(s1, es[1..], cap, s');
    }
  }

  /** All deinitialised: the whole budget is back. */
  lemma BudgetReturned(s: State, es: seq<Event>, cap: int, s': State)
    requires s.running == 0 <= cap && NonNegative(s) && Run(s, es, cap, s')
    requires forall h :: 0 <= h < |s.handlers| ==> !s.handlers[h].live
    requires forall h :: 0 <= h < |s'.handlers| ==> !s'.handlers[h].live
    ensures s'.running == 0
  {
    ParallelScan.SumZero(s.handlers, Held);
    BudgetKept(s, es, cap, s');
    ParallelScan.SumZero(s'.handlers, Held);
  }

  /** A deinitialize keeps the count right exactly when its handler is live or was refused
      its threads: a second deinitialize gives the same threads back again. */
  lemma ReleaseCondition(s: State, h: nat)
    requires h < |s.handlers| && s.running == TotalHeld(s)
    ensures (var s' := Step(s, Deinitialise(h)); s'.running == TotalHeld(s'))
        <==> s.handlers[h].live || s.handlers[h].workers == 0
  {
    ParallelScan.SumUpdate(s.handlers, h, s.handlers[h].(live := false), Held);
  }

  /** One initialize of a single handler and two deinitializes leave the count below zero. */
  lemma DoubleRelease(dop: int, cap: int)
    requires 1 <= dop <= cap
    ensures var s0 := State(0, [Handler(false, 0)]);
            var s1 := Step(s0, Initialise(0, 0, dop, cap));
            var s2 := Step(s1, Deinitialise(0));
            Run(s0, [Initialise(0, 0, dop, cap), Deinitialise(0)], cap, s2) && s2.running == 0
            && Step(s2, Deinitialise(0)).running == -dop
  {
    var s0 := State(0, [Handler(false, 0)]);
    var i, d := Initialise(0, 0, dop, cap), Deinitialise(0);
    var s1 := Step(s0, i);
    assert [i, d][1..] == [d] && [d][1..] == [];
    assert Run(Step(s1, d), [], cap, Step(s1, d));
    assert Run(s1, [d], cap, Step(s1, d));
  }
}

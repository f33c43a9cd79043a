/** The parallel table scan: any number of callers of rnd_next_block share a list of page
    ranges, an array of work tuples and a stack of frame buffers. Every step below runs
    under one of the handler's mutexes or touches only what its caller holds. */
module ParallelScan {
  import opened Basics

  /** pq_work_tuple: the open cursor's unread rows, the rows fetched last and the index of
      the next one to convert. */
  datatype WorkTuple = WorkTuple(cursorValid: bool, unread: seq<int>, fetched: seq<int>, index: nat, inUse: bool) {
    function Leftovers(): seq<int> { if index <= |fetched| then fetched[index..] else [] }
  }

  datatype Phase = Preparing(needNewRange: bool) | Prefetching | Converting | Converted(rows: seq<int>)

  /** A caller owns a frame from the moment a call takes one until it is handed back. */
  datatype Caller =
    | Idle
    | Busy(tuple: nat, local: WorkTuple, frame: int, phase: Phase)
    | Holding(frame: int)
    | Returning(frame: int)
    | Done

  datatype State = State(ranges: seq<seq<int>>, tuples: seq<WorkTuple>, free: seq<int>, callers: seq<Caller>,
                         delivered: multiset<int>, taken: seq<seq<int>>)

  datatype Action =
    | Acquire(c: nat) | Prepare(c: nat) | Prefetch(c: nat, n: nat) | Convert(c: nat, n: nat)
    | WriteBack(c: nat) | ReturnEmpty(c: nat) | Reset(c: nat) | CallAgain(c: nat)

  // ----- the steps

  predicate Resumable(t: WorkTuple) { t.cursorValid && |t.fetched| != 0 && !t.inUse }

  predicate NotInUse(t: WorkTuple) { !t.inUse }

  function FirstIndex(ts: seq<WorkTuple>, p: WorkTuple -> bool): (r: Option<nat>)
    ensures r.Some? ==> r.value < |ts| && p(ts[r.value]) && forall i :: 0 <= i < r.value ==> !p(ts[i])
    ensures r.None? ==> forall i :: 0 <= i < |ts| ==> !p(ts[i])
  {
    if ts == [] then None
    else if p(ts[0]) then Some(0)
    else match FirstIndex(ts[1..], p)
      case None => None
      case Some(i) => Some(i + 1)
  }

  /** get_work_tuple: a started tuple first, any free one otherwise. */
  function PickTuple(ts: seq<WorkTuple>): Option<nat>
  {
    var started := FirstIndex(ts, Resumable);
    if started.Some? then started else FirstIndex(ts, NotInUse)
  }

  predicate Enabled(s: State, a: Action)
  {
    && a.c < |s.callers|
    && match a
       case Acquire(c) => s.callers[c].Idle?
       case Prepare(c) => s.callers[c].Busy? && s.callers[c].phase.Preparing?
       case Prefetch(c, n) =>
         // the engine returns no rows only when the cursor is exhausted
         && s.callers[c].Busy? && s.callers[c].phase.Prefetching?
         && n <= |s.callers[c].local.unread| && (n == 0 ==> s.callers[c].local.unread == [])
       case Convert(c, n) =>
         // at least one row is converted if there is one
         && s.callers[c].Busy? && s.callers[c].phase.Converting?
         && n <= |s.callers[c].local.Leftovers()| && (n == 0 ==> s.callers[c].local.Leftovers() == [])
       case WriteBack(c) =>
         s.callers[c].Busy? && s.callers[c].phase.Converted? && s.callers[c].tuple < |s.tuples|
       case ReturnEmpty(c) => s.callers[c].Returning?
       case Reset(c) => s.callers[c].Holding?
       case CallAgain(c) => s.callers[c].Done?
  }

  function Set(s: State, c: nat, x: Caller): State
    requires c < |s.callers|
  {
    s.(callers := s.callers[c := x])
  }

  function StepAcquire(s: State, c: nat): State
    requires c < |s.callers|
  {
    var pick := PickTuple(s.tuples);
    if s.free == [] || pick.None? then Set(s, c, Done)
    else
      var i, t, last := pick.value, s.tuples[pick.value].(inUse := true), |s.free| - 1;
      var phase := if |t.fetched| <= t.index || |t.fetched| == 0 then Preparing(false) else Converting;
      Set(s, c, Busy(i, t, s.free[last], phase)).(tuples := s.tuples[i := t], free := s.free[..last])
  }

  function StepPrepare(s: State, c: nat): State
    requires Enabled(s, Prepare(c))
  {
    var b := s.callers[c];
    if b.local.cursorValid && !b.phase.needNewRange then Set(s, c, b.(phase := Prefetching))
    else if s.ranges == [] then Set(s, c, b.(phase := Converting))
    else
      var t := b.local.(cursorValid := true, unread := s.ranges[0]);
      Set(s, c, b.(local := t, phase := Prefetching)).(ranges := s.ranges[1..], taken := s.taken + [s.ranges[0]])
  }

  function Prefetched(b: Caller, n: nat): Caller
    requires b.Busy? && n <= |b.local.unread|
  {
    var t := b.local.(fetched := b.local.unread[..n], unread := b.local.unread[n..]);
    if n == 0 then b.(local := t, phase := Preparing(true))
    else b.(local := t.(index := 0), phase := Converting)
  }

  function ConvertedTo(b: Caller, n: nat): Caller
    requires b.Busy? && n <= |b.local.Leftovers()|
  {
    b.(local := b.local.(index := b.local.index + n), phase := Converted(b.local.Leftovers()[..n]))
  }

  function StepWriteBack(s: State, c: nat): State
    requires Enabled(s, WriteBack(c))
  {
    var b := s.callers[c];
    Set(s, c, if b.phase.rows == [] then Returning(b.frame) else Holding(b.frame))
      .(tuples := s.tuples[b.tuple := b.local.(inUse := false)],
        delivered := s.delivered + multiset(b.phase.rows))
  }

  /** reset_data_frame: the frame goes back on the stack. */
  function StepReturn(s: State, c: nat, x: Caller): State
    requires c < |s.callers| && (s.callers[c].Returning? || s.callers[c].Holding?)
  {
    Set(s, c, x).(free := s.free + [s.callers[c].frame])
  }

  function Step(s: State, a: Action): State
    requires Enabled(s, a)
  {
    match a
    case Acquire(c) => StepAcquire(s, c)
    case Prepare(c) => StepPrepare(s, c)
    case Prefetch(c, n) => Set(s, c, Prefetched(s.callers[c], n))
    case Convert(c, n) => Set(s, c, ConvertedTo(s.callers[c], n))
    case WriteBack(c) => StepWriteBack(s, c)
    case ReturnEmpty(c) => StepReturn(s, c, Done)
    case Reset(c) => StepReturn(s, c, Idle)
    case CallAgain(c) => Set(s, c, Idle)
  }

  predicate Init(s: State)
  {
    && |s.callers| > 0 && (forall c :: 0 <= c < |s.callers| ==> s.callers[c] == Idle)
    && |s.tuples| > 0 && |s.free| == |s.tuples|
    && (forall i :: 0 <= i < |s.tuples| ==> s.tuples[i] == WorkTuple(false, [], [], 0, false))
    && (forall i, j :: 0 <= i < j < |s.free| ==> s.free[i] != s.free[j])
    && s.delivered == multiset{} && s.taken == []
  }

  /** s' is reached from s by the actions, each enabled where it is taken. */
  ghost predicate Run(s: State, acts: seq<Action>, s': State)
    decreases |acts|
  {
    if acts == [] then s' == s
    else Enabled(s, acts[0]) && Run(Step(s, acts[0]), acts[1..], s')
  }

  // ----- sums over tuples and callers

  ghost function Sum<T>(s: seq<T>, f: T -> int): int
  {
    if s == [] then 0 else f(s[0]) + Sum(s[1..], f)
  }

  ghost function MSum<T>(s: seq<T>, f: T -> multiset<int>): multiset<int>
  {
    if s == [] then multiset{} else f(s[0]) + MSum(s[1..], f)
  }

  lemma {:induction false} SumUpdate<T>(s: seq<T>, i: nat, x: T, f: T -> int)
    requires i < |s|
    ensures Sum(s[i := x], f) == Sum(s, f) - f(s[i]) + f(x)
  {
    if i == 0 {
      assert s[0 := x][1..] == s[1..];
    } else {
      assert s[i := x][1..] == s[1..][i - 1 := x];
      SumUpdate(s[1..], i - 1, x, f);
    }
  }

  lemma {:induction false} MSumUpdate<T>(s: seq<T>, i: nat, x: T, f: T -> multiset<int>)
    requires i < |s|
    ensures MSum(s[i := x], f) + f(s[i]) == MSum(s, f) + f(x)
  {
    if i == 0 {
      assert s[0 := x][1..] == s[1..];
      Swap(f(x), MSum(s[1..], f), f(s[0]));
    } else {
      assert s[i := x][1..] == s[1..][i - 1 := x];
      MSumUpdate(s[1..], i - 1, x, f);
      Reassociate(f(s[0]), MSum(s[1..][i - 1 := x], f), f(s[i]));
      Reassociate(f(s[0]), MSum(s[1..], f), f(x));
    }
  }

  lemma Swap(a: multiset<int>, b: multiset<int>, c: multiset<int>)
    ensures a + b + c == c + b + a
  {
  }

  lemma Reassociate(a: multiset<int>, b: multiset<int>, c: multiset<int>)
    ensures a + b + c == a + (b + c)
  {
  }

  lemma {:induction false} SumNonneg<T>(s: seq<T>, f: T -> int, i: nat)
    requires i < |s| && forall k :: 0 <= k < |s| ==> f(s[k]) >= 0
    ensures Sum(s, f) >= f(s[i])
    ensures Sum(s, f) >= 0
  {
    if |s| == 1 {
      assert s[1..] == [];
    } else if i == 0 {
      SumNonneg(s[1..], f, 0);
    } else {
      SumNonneg(s[1..], f, i - 1);
    }
  }

  lemma {:induction false} SumZero<T>(s: seq<T>, f: T -> int)
    requires forall k :: 0 <= k < |s| ==> f(s[k]) == 0
    ensures Sum(s, f) == 0
  {
    if s != [] { SumZero(s[1..], f); }
  }

  lemma {:induction false} MSumEmpty<T>(s: seq<T>, f: T -> multiset<int>)
    requires forall k :: 0 <= k < |s| ==> f(s[k]) == multiset{}
    ensures MSum(s, f) == multiset{}
  {
    if s != [] { MSumEmpty(s[1..], f); }
  }

  // ----- the invariant

  function RowsOf(r: seq<int>): multiset<int> { multiset(r) }

  function IdleRows(t: WorkTuple): multiset<int>
  {
    if t.inUse then multiset{} else multiset(t.Leftovers()) + multiset(t.unread)
  }

  function CallerRows(c: Caller): multiset<int>
  {
    if c.Busy? then
      multiset(c.local.Leftovers()) + multiset(c.local.unread)
      + (if c.phase.Converted? then multiset(c.phase.rows) else multiset{})
    else multiset{}
  }

  function FrameOf(c: Caller): multiset<int>
  {
    if c.Busy? || c.Holding? || c.Returning? then multiset{c.frame} else multiset{}
  }

  function One(b: bool): int { if b then 1 else 0 }
  function Started(t: WorkTuple): int { One(!t.inUse && t.fetched != []) }
  function IsBusy(c: Caller): int { One(c.Busy?) }
  function IsReturning(c: Caller): int { One(c.Returning?) }
  function IsIdle(c: Caller): int { One(c.Idle?) }
  function IsHolding(c: Caller): int { One(c.Holding?) }

  /** A tuple without fetched rows has nothing unread either. */
  ghost predicate TupleOk(t: WorkTuple)
  {
    (t.fetched == [] ==> t.unread == []) && (!t.cursorValid ==> t.fetched == [])
  }

  ghost predicate BusyOk(s: State, b: Caller)
    requires b.Busy?
  {
    && b.tuple < |s.tuples| && s.tuples[b.tuple].inUse
    && var t := b.local;
       match b.phase
       case Preparing(need) =>
         && t.Leftovers() == [] && (!t.cursorValid ==> t.fetched == [])
         && (need || !t.cursorValid ==> t.unread == [] && t.fetched == [])
       case Prefetching => t.Leftovers() == [] && t.cursorValid
       case Converting => TupleOk(t) && (t.Leftovers() == [] ==> t.fetched == [] && s.ranges == [])
       case Converted(rows) => TupleOk(t) && (rows == [] ==> t.fetched == [] && s.ranges == [])
  }

  ghost predicate LocalInv(s: State)
  {
    && (forall c :: 0 <= c < |s.callers| && s.callers[c].Busy? ==> BusyOk(s, s.callers[c]))
    && (forall i :: 0 <= i < |s.tuples| && !s.tuples[i].inUse ==> TupleOk(s.tuples[i]))
  }

  ghost predicate Owns(s: State, c: nat, i: nat)
  {
    c < |s.callers| && s.callers[c].Busy? && s.callers[c].tuple == i
  }

  /** No two callers work on one tuple, and a tuple in use has its caller. */
  ghost predicate Ownership(s: State)
  {
    && (forall c, d, i :: Owns(s, c, i) && Owns(s, d, i) ==> c == d)
    && (forall i :: 0 <= i < |s.tuples| && s.tuples[i].inUse ==> exists c :: Owns(s, c, i))
  }

  /** Started tuples never outnumber the callers that will still ask. */
  ghost predicate Counts(s: State)
  {
    var started, busy, returning := Sum(s.tuples, Started), Sum(s.callers, IsBusy), Sum(s.callers, IsReturning);
    var idle, holding := Sum(s.callers, IsIdle), Sum(s.callers, IsHolding);
    && started <= idle + holding
    && started + busy + returning <= |s.tuples|
    && |s.free| + busy + holding + returning == |s.tuples| > 0
  }

  ghost predicate Progress(s: State)
  {
    && (s.ranges != [] ==> exists c :: 0 <= c < |s.callers| && !s.callers[c].Done?)
    && (forall c :: 0 <= c < |s.callers| && s.callers[c].Returning? ==> s.ranges == [])
  }

  ghost predicate Inv(s: State)
  {
    LocalInv(s) && Ownership(s) && Counts(s) && Progress(s)
  }

  ghost function Rows(s: State): multiset<int>
  {
    s.delivered + MSum(s.tuples, IdleRows) + MSum(s.callers, CallerRows) + MSum(s.ranges, RowsOf)
  }

  ghost function Frames(s: State): multiset<int>
  {
    multiset(s.free) + MSum(s.callers, FrameOf)
  }

  // ----- each step keeps it

  lemma LocalStep(s: State, a: Action)
    requires LocalInv(s) && Ownership(s) && Enabled(s, a)
    ensures LocalInv(Step(s, a)) && Ownership(Step(s, a))
  {
    hide LocalInv, Ownership, StepAcquire, StepPrepare, StepWriteBack, Prefetched, ConvertedTo;
    match a
    case Acquire(c) => LocalAcquire(s, c);
    case Prepare(c) => LocalPrepare(s, c);
    case Prefetch(c, n) => LocalPrefetch(s, c, n);
    case Convert(c, n) => LocalConvert(s, c, n);
    case WriteBack(c) => LocalWriteBack(s, c);
    case ReturnEmpty(c) => LocalRest(s, StepReturn(s, c, Done), c, Done);
    case Reset(c) => LocalRest(s, StepReturn(s, c, Idle), c, Idle);
    case CallAgain(c) => LocalRest(s, Set(s, c, Idle), c, Idle);
  }

  lemma LocalPrefetch(s: State, c: nat, n: nat)
    requires LocalInv(s) && Ownership(s) && Enabled(s, Prefetch(c, n))
    ensures LocalInv(Set(s, c, Prefetched(s.callers[c], n))) && Ownership(Set(s, c, Prefetched(s.callers[c], n)))
  {
    assert BusyOk(s, s.callers[c]);
    LocalBusy(s, c, Prefetched(s.callers[c], n));
  }

  lemma LocalConvert(s: State, c: nat, n: nat)
    requires LocalInv(s) && Ownership(s) && Enabled(s, Convert(c, n))
    ensures LocalInv(Set(s, c, ConvertedTo(s.callers[c], n))) && Ownership(Set(s, c, ConvertedTo(s.callers[c], n)))
  {
    assert BusyOk(s, s.callers[c]);
    LocalBusy(s, c, ConvertedTo(s.callers[c], n));
  }

  lemma LocalAcquire(s: State, c: nat)
    requires LocalInv(s) && Ownership(s) && Enabled(s, Acquire(c))
    ensures LocalInv(StepAcquire(s, c)) && Ownership(StepAcquire(s, c))
  {
    var s', pick := StepAcquire(s, c), PickTuple(s.tuples);
    if s.free == [] || pick.None? {
      Disowned(s, s');
    } else {
      var i := pick.value;
      assert !s.tuples[i].inUse;
      assert Owns(s', c, i);
      forall d, k | Owns(s', d, k) && d != c ensures Owns(s, d, k) && k != i {}
      forall k | 0 <= k < |s'.tuples| && s'.tuples[k].inUse ensures exists d :: Owns(s', d, k) {
        if k != i { var d :| Owns(s, d, k); assert Owns(s', d, k); }
      }
    }
  }

  /** A busy caller moves on to b on the same tuple; nothing else changes. */
  lemma LocalBusy(s: State, c: nat, b: Caller)
    requires LocalInv(s) && Ownership(s) && c < |s.callers| && s.callers[c].Busy?
    requires b.Busy? && b.tuple == s.callers[c].tuple && BusyOk(s, b)
    ensures LocalInv(Set(s, c, b)) && Ownership(Set(s, c, b))
  {
    var s' := Set(s, c, b);
    forall d | 0 <= d < |s'.callers| && s'.callers[d].Busy? ensures BusyOk(s', s'.callers[d]) {
      if d != c { assert BusyOk(s, s.callers[d]); }
    }
    Disowned(s, s');
  }

  lemma LocalPrepare(s: State, c: nat)
    requires LocalInv(s) && Ownership(s) && Enabled(s, Prepare(c))
    ensures LocalInv(StepPrepare(s, c)) && Ownership(StepPrepare(s, c))
  {
    var b := s.callers[c];
    var s' := StepPrepare(s, c);
    assert BusyOk(s, b);
    forall d | 0 <= d < |s'.callers| && s'.callers[d].Busy? ensures BusyOk(s', s'.callers[d]) {
      if d != c { assert BusyOk(s, s.callers[d]); }
    }
    Disowned(s, s');
  }

  lemma LocalWriteBack(s: State, c: nat)
    requires LocalInv(s) && Ownership(s) && Enabled(s, WriteBack(c))
    ensures LocalInv(StepWriteBack(s, c)) && Ownership(StepWriteBack(s, c))
  {
    var s', b := StepWriteBack(s, c), s.callers[c];
    assert BusyOk(s, b) && Owns(s, c, b.tuple);
    forall d | 0 <= d < |s'.callers| && s'.callers[d].Busy? ensures BusyOk(s', s'.callers[d]) {
      assert d != c && BusyOk(s, s.callers[d]) && Owns(s, d, s.callers[d].tuple);
    }
    forall d, k | Owns(s', d, k) ensures Owns(s, d, k) {}
    forall k | 0 <= k < |s'.tuples| && s'.tuples[k].inUse ensures exists d :: Owns(s', d, k) {
      var d :| Owns(s, d, k);
      assert Owns(s', d, k);
    }
  }

  /** A caller that was not busy and does not become so. */
  lemma LocalRest(s: State, s': State, c: nat, x: Caller)
    requires LocalInv(s) && Ownership(s) && c < |s.callers| && !s.callers[c].Busy? && !x.Busy?
    requires s'.callers == s.callers[c := x] && s'.tuples == s.tuples && s'.ranges == s.ranges
    ensures LocalInv(s') && Ownership(s')
  {
    forall d | 0 <= d < |s'.callers| && s'.callers[d].Busy? ensures BusyOk(s', s'.callers[d]) {
      assert BusyOk(s, s.callers[d]);
    }
    Disowned(s, s');
  }

  /** Ownership only looks at which callers are busy on which tuple. */
  lemma Disowned(s: State, s': State)
    requires Ownership(s) && s'.tuples == s.tuples && |s'.callers| == |s.callers|
    requires forall c, i :: Owns(s', c, i) <==> Owns(s, c, i)
    ensures Ownership(s')
  {
    forall k | 0 <= k < |s'.tuples| && s'.tuples[k].inUse ensures exists d :: Owns(s', d, k) {
      var d :| Owns(s, d, k);
      assert Owns(s', d, k);
    }
  }

  lemma CallerCounts(s: State, c: nat, x: Caller)
    requires c < |s.callers|
    ensures Sum(s.callers[c := x], IsBusy) == Sum(s.callers, IsBusy) - IsBusy(s.callers[c]) + IsBusy(x)
    ensures Sum(s.callers[c := x], IsReturning) == Sum(s.callers, IsReturning) - IsReturning(s.callers[c]) + IsReturning(x)
    ensures Sum(s.callers[c := x], IsIdle) == Sum(s.callers, IsIdle) - IsIdle(s.callers[c]) + IsIdle(x)
    ensures Sum(s.callers[c := x], IsHolding) == Sum(s.callers, IsHolding) - IsHolding(s.callers[c]) + IsHolding(x)
    ensures Sum(s.callers, IsIdle) >= IsIdle(s.callers[c]) && Sum(s.callers, IsHolding) >= 0
  {
    SumUpdate(s.callers, c, x, IsBusy);
    SumUpdate(s.callers, c, x, IsReturning);
    SumUpdate(s.callers, c, x, IsIdle);
    SumUpdate(s.callers, c, x, IsHolding);
    SumNonneg(s.callers, IsIdle, c);
    SumNonneg(s.callers, IsHolding, c);
  }

  lemma CountsStep(s: State, a: Action)
    requires LocalInv(s) && Counts(s) && Enabled(s, a)
    ensures Counts(Step(s, a))
  {
    hide Counts, StepAcquire, StepWriteBack;
    match a
    case Acquire(c) => CountsAcquire(s, c);
    case Prepare(c) => CountsSame(s, StepPrepare(s, c), c);
    case Prefetch(c, n) => CountsSame(s, Set(s, c, Prefetched(s.callers[c], n)), c);
    case Convert(c, n) => CountsSame(s, Set(s, c, ConvertedTo(s.callers[c], n)), c);
    case WriteBack(c) => CountsWriteBack(s, c);
    case ReturnEmpty(c) => CountsReturn(s, StepReturn(s, c, Done), c, Done);
    case Reset(c) => CountsReturn(s, StepReturn(s, c, Idle), c, Idle);
    case CallAgain(c) => CountsReturn(s, Set(s, c, Idle), c, Idle);
  }

  /** Caller c stays busy. */
  lemma CountsSame(s: State, s': State, c: nat)
    requires Counts(s) && c < |s.callers| && s'.tuples == s.tuples && s'.free == s.free
    requires |s'.callers| == |s.callers| && s'.callers == s.callers[c := s'.callers[c]]
    requires s.callers[c].Busy? && s'.callers[c].Busy?
    ensures Counts(s')
  {
    hide Sum;
    CallerCounts(s, c, s'.callers[c]);
  }

  lemma CountsReturn(s: State, s': State, c: nat, x: Caller)
    requires Counts(s) && c < |s.callers| && s'.tuples == s.tuples && s'.callers == s.callers[c := x]
    requires (s.callers[c].Returning? && x.Done?) || (s.callers[c].Holding? && x.Idle?)
          || (s.callers[c].Done? && x.Idle?)
    requires |s'.free| == |s.free| + if s.callers[c].Done? then 0 else 1
    ensures Counts(s')
  {
    hide Sum;
    CallerCounts(s, c, x);
  }

  lemma CountsWriteBack(s: State, c: nat)
    requires LocalInv(s) && Counts(s) && Enabled(s, WriteBack(c))
    ensures Counts(StepWriteBack(s, c))
  {
    hide Sum;
    var s', b := StepWriteBack(s, c), s.callers[c];
    assert BusyOk(s, b);
    CallerCounts(s, c, s'.callers[c]);
    SumUpdate(s.tuples, b.tuple, b.local.(inUse := false), Started);
  }

  lemma CountsAcquire(s: State, c: nat)
    requires LocalInv(s) && Counts(s) && Enabled(s, Acquire(c))
    ensures Counts(StepAcquire(s, c))
  {
    var s', pick := StepAcquire(s, c), PickTuple(s.tuples);
    CallerCounts(s, c, s'.callers[c]);
    if FirstIndex(s.tuples, Resumable).None? {
      forall i | 0 <= i < |s.tuples| ensures Started(s.tuples[i]) == 0 {
        assert !Resumable(s.tuples[i]);
      }
      SumZero(s.tuples, Started);
    }
    hide Sum;
    if s.free != [] && pick.Some? {
      SumUpdate(s.tuples, pick.value, s'.tuples[pick.value], Started);
    }
  }

  lemma ProgressStep(s: State, a: Action)
    requires Inv(s) && Enabled(s, a)
    ensures Progress(Step(s, a))
  {
    var s', b := Step(s, a), s.callers[a.c];
    if b.Busy? { assert BusyOk(s, b); }
    if a.Acquire? && s'.callers[a.c].Done? && s.ranges != [] {
      SomeoneElse(s, a.c);
      var d :| 0 <= d < |s.callers| && d != a.c && !s.callers[d].Done?;
      assert !s'.callers[d].Done?;
    } else if s'.ranges != [] {
      assert !s'.callers[a.c].Done?;
    }
  }

  /** A call turned away for want of a frame or a tuple leaves another call going. */
  lemma SomeoneElse(s: State, c: nat)
    requires Inv(s) && c < |s.callers| && s.callers[c].Idle?
    requires s.free == [] || PickTuple(s.tuples).None?
    ensures exists d :: 0 <= d < |s.callers| && d != c && !s.callers[d].Done?
  {
    if s.free == [] {
      if forall d :: 0 <= d < |s.callers| && d != c ==> s.callers[d].Done? {
        SumZero(s.callers, IsBusy);
        SumZero(s.callers, IsHolding);
        SumZero(s.callers, IsReturning);
      }
    } else {
      assert s.tuples[0].inUse by { assert !NotInUse(s.tuples[0]); }
      var d :| Owns(s, d, 0);
    }
  }

  lemma InvStep(s: State, a: Action)
    requires Inv(s) && Enabled(s, a)
    ensures Inv(Step(s, a))
  {
    LocalStep(s, a);
    CountsStep(s, a);
    ProgressStep(s, a);
  }

  // ----- conservation

  type Bag = multiset<int>

  /** If what the changed tuple, the changed caller and the delivery hold balances what they
      and the fetched range held, the whole balances. */
  lemma Balance(d: Bag, t: Bag, c: Bag, r: Bag, d': Bag, t': Bag, c': Bag, r': Bag,
                t0: Bag, t1: Bag, c0: Bag, c1: Bag, sent: Bag, range: Bag)
    requires t' + t0 == t + t1 && c' + c0 == c + c1 && d' == d + sent && r == range + r'
    requires t1 + c1 + sent == t0 + c0 + range
    ensures d' + t' + c' + r' == d + t + c + r
  {
    forall x: int ensures (d' + t' + c' + r')[x] == (d + t + c + r)[x] {
      assert (t' + t0)[x] == (t + t1)[x] && (c' + c0)[x] == (c + c1)[x];
      assert (t1 + c1 + sent)[x] == (t0 + c0 + range)[x];
    }
  }

  /** A step of caller c that changes tuple i, delivers sent and takes the range. */
  lemma BalancedStep(s: State, s': State, c: nat, x: Caller, i: nat, t: WorkTuple, sent: Bag, range: Bag)
    requires c < |s.callers| && i < |s.tuples|
    requires s'.callers == s.callers[c := x] && s'.tuples == s.tuples[i := t] && s'.delivered == s.delivered + sent
    requires MSum(s.ranges, RowsOf) == range + MSum(s'.ranges, RowsOf)
    requires IdleRows(t) + CallerRows(x) + sent == IdleRows(s.tuples[i]) + CallerRows(s.callers[c]) + range
    ensures Rows(s') == Rows(s)
  {
    MSumUpdate(s.callers, c, x, CallerRows);
    MSumUpdate(s.tuples, i, t, IdleRows);
    hide MSum, IdleRows, CallerRows;
    Balance(s.delivered, MSum(s.tuples, IdleRows), MSum(s.callers, CallerRows), MSum(s.ranges, RowsOf),
            s'.delivered, MSum(s'.tuples, IdleRows), MSum(s'.callers, CallerRows), MSum(s'.ranges, RowsOf),
            IdleRows(s.tuples[i]), IdleRows(t), CallerRows(s.callers[c]), CallerRows(x), sent, range);
  }

  /** A step that only changes what caller c is doing with the rows it has. */
  lemma CallerStep(s: State, s': State, c: nat, x: Caller)
    requires c < |s.callers| && s'.callers == s.callers[c := x] && s'.tuples == s.tuples
    requires s'.delivered == s.delivered && s'.ranges == s.ranges && |s.tuples| > 0
    requires CallerRows(x) == CallerRows(s.callers[c])
    ensures Rows(s') == Rows(s)
  {
    hide MSum, CallerRows, IdleRows;
    BalancedStep(s, s', c, x, 0, s.tuples[0], multiset{}, multiset{});
  }

  /** No step loses or repeats a row. */
  lemma RowsStep(s: State, a: Action)
    requires Inv(s) && Enabled(s, a)
    ensures Rows(Step(s, a)) == Rows(s)
  {
    hide Rows, StepAcquire, StepPrepare, StepWriteBack, Prefetched, ConvertedTo, CallerRows;
    match a
    case Acquire(c) => RowsAcquire(s, c);
    case Prepare(c) => RowsPrepare(s, c);
    case Prefetch(c, n) =>
      RowsPrefetch(s, c, n);
      CallerStep(s, Set(s, c, Prefetched(s.callers[c], n)), c, Prefetched(s.callers[c], n));
    case Convert(c, n) =>
      RowsConvert(s.callers[c], n);
      CallerStep(s, Set(s, c, ConvertedTo(s.callers[c], n)), c, ConvertedTo(s.callers[c], n));
    case WriteBack(c) => RowsWriteBack(s, c);
    case ReturnEmpty(c) =>
      NoRows(s.callers[c], Done);
      CallerStep(s, StepReturn(s, c, Done), c, Done);
    case Reset(c) =>
      NoRows(s.callers[c], Idle);
      CallerStep(s, StepReturn(s, c, Idle), c, Idle);
    case CallAgain(c) =>
      NoRows(s.callers[c], Idle);
      CallerStep(s, Set(s, c, Idle), c, Idle);
  }

  lemma NoRows(b: Caller, x: Caller)
    requires !b.Busy? && !x.Busy?
    ensures CallerRows(x) == CallerRows(b)
  {
  }

  lemma SplitBag(l: seq<int>, n: nat)
    requires n <= |l|
    ensures multiset(l) == multiset(l[..n]) + multiset(l[n..])
  {
    assert l == l[..n] + l[n..];
  }

  lemma RowsAcquire(s: State, c: nat)
    requires Inv(s) && Enabled(s, Acquire(c))
    ensures Rows(StepAcquire(s, c)) == Rows(s)
  {
    hide MSum, Sum;
    var s', pick := StepAcquire(s, c), PickTuple(s.tuples);
    if s.free == [] || pick.None? {
      CallerStep(s, s', c, Done);
    } else {
      BalancedStep(s, s', c, s'.callers[c], pick.value, s'.tuples[pick.value], multiset{}, multiset{});
    }
  }

  lemma RowsPrefetch(s: State, c: nat, n: nat)
    requires LocalInv(s) && Enabled(s, Prefetch(c, n))
    ensures CallerRows(Prefetched(s.callers[c], n)) == CallerRows(s.callers[c])
  {
    var b := s.callers[c];
    var b' := Prefetched(b, n);
    assert b.local.Leftovers() == [] by { assert BusyOk(s, b); }
    assert b'.local.Leftovers() == b.local.unread[..n];
    hide WorkTuple.Leftovers, LocalInv;
    SplitBag(b.local.unread, n);
  }

  lemma RowsConvert(b: Caller, n: nat)
    requires b.Busy? && b.phase.Converting? && n <= |b.local.Leftovers()|
    ensures CallerRows(ConvertedTo(b, n)) == CallerRows(b)
  {
    var l := b.local.Leftovers();
    assert ConvertedTo(b, n).local.Leftovers() == l[n..];
    SplitBag(l, n);
    hide WorkTuple.Leftovers;
    Rotate(multiset(l[..n]), multiset(l[n..]), multiset(b.local.unread));
  }

  lemma Rotate(a: Bag, b: Bag, c: Bag)
    ensures b + c + a == (a + b) + c + multiset{}
  {
  }

  lemma RowsWriteBack(s: State, c: nat)
    requires Inv(s) && Enabled(s, WriteBack(c))
    ensures Rows(StepWriteBack(s, c)) == Rows(s)
  {
    var s', b := StepWriteBack(s, c), s.callers[c];
    assert BusyOk(s, b);
    hide MSum, Sum;
    BalancedStep(s, s', c, s'.callers[c], b.tuple, s'.tuples[b.tuple], multiset(b.phase.rows), multiset{});
  }

  lemma RowsPrepare(s: State, c: nat)
    requires Inv(s) && Enabled(s, Prepare(c))
    ensures Rows(StepPrepare(s, c)) == Rows(s)
  {
    var b := s.callers[c];
    var s' := StepPrepare(s, c);
    assert BusyOk(s, b);
    if s.ranges == [] || (b.local.cursorValid && !b.phase.needNewRange) {
      CallerStep(s, s', c, s'.callers[c]);
    } else {
      BalancedStep(s, s', c, s'.callers[c], 0, s.tuples[0], multiset{}, multiset(s.ranges[0]));
    }
  }

  // ----- frames

  lemma FramesStep(s: State, a: Action)
    requires Enabled(s, a)
    ensures Frames(Step(s, a)) == Frames(s)
  {
    hide Frames, StepAcquire;
    match a
    case Acquire(c) => FramesAcquire(s, c);
    case Prepare(c) => FramesBusy(s, StepPrepare(s, c), c);
    case Prefetch(c, n) => FramesBusy(s, Set(s, c, Prefetched(s.callers[c], n)), c);
    case Convert(c, n) => FramesBusy(s, Set(s, c, ConvertedTo(s.callers[c], n)), c);
    case WriteBack(c) => FramesBusy(s, StepWriteBack(s, c), c);
    case ReturnEmpty(c) => FramesReturn(s, c, Done);
    case Reset(c) => FramesReturn(s, c, Idle);
    case CallAgain(c) => FramesMoved(s, Set(s, c, Idle), c, multiset{}, multiset{});
  }

  lemma FramesMoved(s: State, s': State, c: nat, c0: Bag, c1: Bag)
    requires c < |s.callers| && |s'.callers| == |s.callers| && s'.callers == s.callers[c := s'.callers[c]]
    requires c0 == FrameOf(s.callers[c]) && c1 == FrameOf(s'.callers[c])
    requires multiset(s'.free) + c1 == multiset(s.free) + c0
    ensures Frames(s') == Frames(s)
  {
    MSumUpdate(s.callers, c, s'.callers[c], FrameOf);
    hide MSum, FrameOf;
    Moved(multiset(s.free), MSum(s.callers, FrameOf), multiset(s'.free), MSum(s'.callers, FrameOf), c0, c1);
  }

  lemma Moved(f: Bag, c: Bag, f': Bag, c': Bag, c0: Bag, c1: Bag)
    requires f' + c1 == f + c0 && c' + c0 == c + c1
    ensures f' + c' == f + c
  {
    forall x: int ensures (f' + c')[x] == (f + c)[x] {
      assert (f' + c1)[x] == (f + c0)[x] && (c' + c0)[x] == (c + c1)[x];
    }
  }

  /** Caller c keeps its frame. */
  lemma FramesBusy(s: State, s': State, c: nat)
    requires c < |s.callers| && |s'.callers| == |s.callers| && s'.callers == s.callers[c := s'.callers[c]]
    requires s.callers[c].Busy? && s'.free == s.free
    requires (s'.callers[c].Busy? || s'.callers[c].Holding? || s'.callers[c].Returning?)
          && s'.callers[c].frame == s.callers[c].frame
    ensures Frames(s') == Frames(s)
  {
    FramesMoved(s, s', c, multiset{s.callers[c].frame}, multiset{s.callers[c].frame});
  }

  lemma FramesReturn(s: State, c: nat, x: Caller)
    requires c < |s.callers| && (s.callers[c].Returning? || s.callers[c].Holding?) && (x.Done? || x.Idle?)
    ensures Frames(StepReturn(s, c, x)) == Frames(s)
  {
    var f := s.callers[c].frame;
    assert multiset(s.free + [f]) == multiset(s.free) + multiset{f};
    FramesMoved(s, StepReturn(s, c, x), c, multiset{f}, multiset{});
  }

  lemma FramesAcquire(s: State, c: nat)
    requires Enabled(s, Acquire(c))
    ensures Frames(StepAcquire(s, c)) == Frames(s)
  {
    var s' := StepAcquire(s, c);
    if s'.callers[c].Done? {
      FramesMoved(s, s', c, multiset{}, multiset{});
    } else {
      var f := s.free[|s.free| - 1];
      assert s.free == s'.free + [f];
      assert multiset(s.free) == multiset(s'.free) + multiset{f};
      FramesMoved(s, s', c, multiset{}, multiset{f});
    }
  }

  // ----- every run

  lemma InitInv(s: State)
    requires Init(s)
    ensures Inv(s) && Frames(s) == multiset(s.free) && Rows(s) == MSum(s.ranges, RowsOf)
  {
    SumZero(s.tuples, Started);
    SumZero(s.callers, IsBusy);
    SumZero(s.callers, IsHolding);
    SumZero(s.callers, IsReturning);
    SumNonneg(s.callers, IsIdle, 0);
    MSumEmpty(s.callers, FrameOf);
    MSumEmpty(s.callers, CallerRows);
    MSumEmpty(s.tuples, IdleRows);
    assert !s.callers[0].Done?;
  }

  /** What holds in every state of every run from s0. */
  ghost predicate Safe(s0: State, s: State)
  {
    && Inv(s) && Rows(s) == Rows(s0) && Frames(s) == Frames(s0)
    && s.taken + s.ranges == s0.taken + s0.ranges
    && |s.tuples| == |s0.tuples| && |s.callers| == |s0.callers|
  }

  lemma {:induction false} RunSafe(s0: State, s: State, acts: seq<Action>, s': State)
    requires Safe(s0, s) && Run(s, acts, s')
    ensures Safe(s0, s')
    decreases |acts|
  {
    if acts != [] {
      InvStep(s, acts[0]);
      RowsStep(s, acts[0]);
      FramesStep(s, acts[0]);
      TakenStep(s, acts[0]);
      RunSafe(s0, Step(s, acts[0]), acts[1..], s');
    }
  }

  lemma TakenStep(s: State, a: Action)
    requires Enabled(s, a)
    ensures Step(s, a).taken + Step(s, a).ranges == s.taken + s.ranges
    ensures |Step(s, a).tuples| == |s.tuples| && |Step(s, a).callers| == |s.callers|
  {
    if a.Prepare? && Step(s, a).ranges != s.ranges {
      assert s.ranges == [s.ranges[0]] + s.ranges[1..];
    }
  }

  /** Over every interleaving: delivered, held, unread and unfetched rows together are the
      table's rows; each saved range is taken at most once, in list order; no two callers
      work on one tuple; and the frames in the stack and with callers are the original ones. */
  lemma {:induction false} EveryRun(s0: State, acts: seq<Action>, s: State)
    requires Init(s0) && Run(s0, acts, s)
    ensures Rows(s) == MSum(s0.ranges, RowsOf)
    ensures s.taken + s.ranges == s0.ranges
    ensures forall c, d, i :: Owns(s, c, i) && Owns(s, d, i) ==> c == d
    ensures multiset(s.free) + MSum(s.callers, FrameOf) == multiset(s0.free)
    ensures -1 <= |s.free| - 1 < |s0.tuples|
  {
    InitInv(s0);
    assert s0.taken + s0.ranges == s0.ranges;
    RunSafe(s0, s0, acts, s);
    CountBounds(s);
  }

  lemma CountBounds(s: State)
    requires Counts(s)
    ensures |s.free| <= |s.tuples|
  {
    if s.callers != [] {
      SumNonneg(s.callers, IsBusy, 0);
      SumNonneg(s.callers, IsHolding, 0);
      SumNonneg(s.callers, IsReturning, 0);
    }
  }

  /** When every caller has been told end of file, every row of the table was delivered. */
  lemma {:induction false} AllDelivered(s0: State, acts: seq<Action>, s: State)
    requires Init(s0) && Run(s0, acts, s)
    requires forall c :: 0 <= c < |s.callers| ==> s.callers[c].Done?
    ensures s.delivered == MSum(s0.ranges, RowsOf)
  {
    InitInv(s0);
    assert s0.taken + s0.ranges == s0.ranges;
    RunSafe(s0, s0, acts, s);
    NothingHeld(s);
  }

  lemma NothingHeld(s: State)
    requires Inv(s) && forall c :: 0 <= c < |s.callers| ==> s.callers[c].Done?
    ensures Rows(s) == s.delivered
  {
    SumZero(s.callers, IsIdle);
    SumZero(s.callers, IsHolding);
    forall i | 0 <= i < |s.tuples| ensures IdleRows(s.tuples[i]) == multiset{} {
      SumNonneg(s.tuples, Started, i);
      if s.tuples[i].inUse { var c :| Owns(s, c, i); }
    }
    MSumEmpty(s.tuples, IdleRows);
    MSumEmpty(s.callers, CallerRows);
  }

  // ----- every call returns

  /** A bound on the steps that a call in progress has still to take before it writes back. */
  function StepsLeft(s: State, c: nat): nat
    requires c < |s.callers|
  {
    if !s.callers[c].Busy? then 0
    else
      match s.callers[c].phase
      case Preparing(needNewRange) =>
        3 * |s.ranges| + if s.callers[c].local.cursorValid && !needNewRange then 4 else 2
      case Prefetching => 3 * |s.ranges| + 3
      case Converting => 1
      case Converted(_) => 0
  }

  predicate WithinCall(a: Action) { a.Prepare? || a.Prefetch? || a.Convert? }

  lemma StepsLeftStep(s: State, a: Action, c: nat)
    requires Enabled(s, a) && c < |s.callers| && (a.c == c ==> WithinCall(a))
    ensures c < |Step(s, a).callers|
    ensures StepsLeft(Step(s, a), c) + (if a.c == c then 1 else 0) <= StepsLeft(s, c)
  {
    var s' := Step(s, a);
    if a.c != c {
      assert s'.callers[c] == s.callers[c] && |s'.ranges| <= |s.ranges|;
    }
  }

  /** The steps of one caller in a run. */
  function OwnSteps(acts: seq<Action>, c: nat): nat
  {
    if acts == [] then 0 else (if acts[0].c == c then 1 else 0) + OwnSteps(acts[1..], c)
  }

  /** Whatever the other callers do, a call takes a bounded number of steps of its own before
      it writes its tuple back: an empty cursor makes it ask for a new range. */
  lemma {:induction false} CallEnds(s: State, acts: seq<Action>, s': State, c: nat)
    requires Run(s, acts, s') && c < |s.callers|
    requires forall i :: 0 <= i < |acts| && acts[i].c == c ==> WithinCall(acts[i])
    ensures OwnSteps(acts, c) <= StepsLeft(s, c) <= 3 * |s.ranges| + 4
    decreases |acts|
  {
    if acts != [] {
      StepsLeftStep(s, acts[0], c);
      forall i | 0 <= i < |acts[1..]| && acts[1..][i].c == c ensures WithinCall(acts[1..][i]) {
        assert acts[1..][i] == acts[i + 1];
      }
      CallEnds(Step(s, acts[0]), acts[1..], s', c);
    }
  }

  /** Nor does it ever wait for another: some step of its own is enabled. */
  lemma NeverStuck(s: State, c: nat)
    requires Inv(s) && c < |s.callers| && s.callers[c].Busy?
    ensures exists a: Action :: a.c == c && (WithinCall(a) || a.WriteBack?) && Enabled(s, a)
  {
    var b := s.callers[c];
    assert BusyOk(s, b);
    var a := match b.phase
      case Preparing(_) => Prepare(c)
      case Prefetching => Action.Prefetch(c, |b.local.unread|)
      case Converting => Action.Convert(c, |b.local.Leftovers()|)
      case Converted(_) => WriteBack(c);
    assert a.c == c && Enabled(s, a);
  }
}

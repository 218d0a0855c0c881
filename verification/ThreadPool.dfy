/**
 The self-respawning JavaScript threads of DumpRenderTree as a state machine: one step per acquisition, release or
 shared action, taken in any order the mutex allows.
 */
module ThreadPool {
  import opened Prelude

  const THREADS_COUNT: nat := 4

  /** Where a JavaScript thread is. Want... waits for the mutex, In... holds it. */
  datatype PC =
    | WantContext | InContext
    | WantScript | InScript
    | WantEvaluate | InEvaluate
    | WantAllocate | InAllocate
    | WantCheck | InCheck
    | Deciding
    | WantRespawn | InDetach | InRemove | InAdd | InUnlock
    | WantCleanup | InCleanup
    | Exited

  /** Where the main thread is: before and in startJavaScriptThreads, between, and in stopJavaScriptThreads. */
  datatype Main =
    | WantStart | InStart(added: nat)
    | Running
    | InFlag | WantSnapshot | InSnapshot
    | Waiting(joined: nat)
    | Done

  datatype Holder = MainHolds | ThreadHolds(t: nat)

  /** `threads` has one entry per thread ever created; its index is the thread's identifier. */
  datatype State = State(
    threads: seq<PC>,
    detached: set<nat>,
    pool: set<nat>,
    shouldTerminate: bool,
    mutex: Option<Holder>,
    main: Main,
    snapshot: seq<nat>)

  predicate Holding(pc: PC) {
    pc.InContext? || pc.InScript? || pc.InEvaluate? || pc.InAllocate? || pc.InCheck?
    || pc.InDetach? || pc.InRemove? || pc.InAdd? || pc.InUnlock? || pc.InCleanup?
  }

  predicate Wanting(pc: PC) {
    pc.WantContext? || pc.WantScript? || pc.WantEvaluate? || pc.WantAllocate? || pc.WantCheck?
    || pc.WantRespawn? || pc.WantCleanup?
  }

  // ---------------------------------------------------------------- steps

  /** Where a thread goes on. Only the check looks at the flag; `respawn` is the outcome of the draw in
      `rand() % 5`. */
  function NextPC(pc: PC, shouldTerminate: bool, respawn: bool): PC {
    match pc
    case WantContext => InContext
    case InContext => WantScript
    case WantScript => InScript
    case InScript => WantEvaluate
    case WantEvaluate => InEvaluate
    case InEvaluate => WantAllocate
    case WantAllocate => InAllocate
    case InAllocate => WantCheck
    case WantCheck => InCheck
    case InCheck => if shouldTerminate then WantCleanup else Deciding
    case Deciding => if respawn then WantRespawn else WantEvaluate
    case WantRespawn => InDetach
    case InDetach => InRemove
    case InRemove => InAdd
    case InAdd => InUnlock
    case InUnlock => WantCleanup
    case WantCleanup => InCleanup
    case InCleanup => Exited
    case Exited => Exited
  }

  /** One step of runJavaScriptThread in thread t. */
  function Successor(s: State, t: nat, respawn: bool): State
    requires t < |s.threads|
  {
    var pc := s.threads[t];
    var pc' := NextPC(pc, s.shouldTerminate, respawn);
    s.(
      threads := if pc == InAdd then s.threads[t := pc'] + [WantContext] else s.threads[t := pc'],
      detached := if pc == InDetach then s.detached + {t} else s.detached,
      pool := if pc == InRemove then s.pool - {t} else if pc == InAdd then s.pool + {|s.threads|} else s.pool,
      mutex := if Wanting(pc) then Some(ThreadHolds(t)) else if Holding(pc) && !Holding(pc') then None else s.mutex)
  }

  /** A thread that wants the mutex waits until it is free; an exited thread does nothing. */
  predicate Enabled(s: State, t: nat) {
    t < |s.threads| && s.threads[t] != Exited && (Wanting(s.threads[t]) ==> s.mutex.None?)
  }

  predicate ThreadStep(s: State, t: nat, s': State) {
    Enabled(s, t) && (s' == Successor(s, t, true) || s' == Successor(s, t, false))
  }

  /** Waiting ends when the thread has exited. Joining a detached thread is an error; the wait is taken to return, and
      what it then asserts about the thread map is not modelled. */
  predicate WaitReturns(s: State, t: nat) {
    t in s.detached || (t < |s.threads| && s.threads[t] == Exited)
  }

  /** One step of the main thread. */
  ghost predicate MainStep(s: State, s': State) {
    match s.main
    case WantStart => s.mutex.None? && s' == s.(main := InStart(0), mutex := Some(MainHolds))
    case InStart(k) =>
      if k < THREADS_COUNT then
        s' == s.(main := InStart(k + 1), threads := s.threads + [WantContext], pool := s.pool + {|s.threads|})
      else
        s' == s.(main := Running, mutex := None)
    case Running => s.mutex.None? && s' == s.(main := InFlag, mutex := Some(MainHolds))
    case InFlag => s' == s.(main := WantSnapshot, shouldTerminate := true, mutex := None)
    case WantSnapshot => s.mutex.None? && s' == s.(main := InSnapshot, mutex := Some(MainHolds))
    case InSnapshot =>
      && s' == s.(main := Waiting(0), snapshot := s'.snapshot, mutex := None)
      && NoDuplicates(s'.snapshot) && (forall t :: t in s'.snapshot <==> t in s.pool)
    case Waiting(i) =>
      if i < THREADS_COUNT then
        i < |s.snapshot| && WaitReturns(s, s.snapshot[i]) && s' == s.(main := Waiting(i + 1))
      else
        s' == s.(main := Done, pool := {})
    case Done => false
  }

  ghost predicate Step(s: State, s': State) {
    MainStep(s, s') || exists t: nat :: ThreadStep(s, t, s')
  }

  predicate Init(s: State) {
    s == State([], {}, {}, false, None, WantStart, [])
  }

  /** A finite execution from any state. */
  ghost predicate Execution(r: seq<State>) {
    |r| > 0 && forall i :: 0 <= i < |r| - 1 ==> Step(r[i], r[i + 1])
  }

  ghost predicate Reachable(s: State) {
    exists r :: Execution(r) && Init(r[0]) && r[|r| - 1] == s
  }

  // ---------------------------------------------------------------- the invariant

  predicate MainHolding(m: Main) {
    m.InStart? || m.InFlag? || m.InSnapshot?
  }

  ghost predicate MutexInv(s: State) {
    && (s.mutex == Some(MainHolds) <==> MainHolding(s.main))
    && (forall t :: 0 <= t < |s.threads| ==> (Holding(s.threads[t]) <==> s.mutex == Some(ThreadHolds(t))))
    && (s.mutex.Some? && s.mutex.value.ThreadHolds? ==> s.mutex.value.t < |s.threads|)
  }

  ghost predicate DetachInv(s: State) {
    && (forall t :: t in s.detached ==> t < |s.threads|)
    && (forall t :: 0 <= t < |s.threads| ==> DetachedAt(s.threads[t], t in s.detached))
  }

  /** Some thread has left the set and not yet put its replacement in. */
  ghost predicate MidRespawn(s: State) {
    exists t :: 0 <= t < |s.threads| && s.threads[t] == InAdd
  }

  ghost predicate PoolInv(s: State) {
    && (forall t :: t in s.pool ==> t < |s.threads|)
    && (s.main != Done ==>
      && (forall t :: 0 <= t < |s.threads| ==> (t in s.pool <==> t !in s.detached || s.threads[t] == InRemove))
      && |s.pool| == (match s.main
                      case WantStart => 0
                      case InStart(k) => k
                      case _ => if MidRespawn(s) then THREADS_COUNT - 1 else THREADS_COUNT))
  }

  ghost predicate MainInv(s: State) {
    && (s.main.WantStart? ==> s.threads == [])
    && (s.main.InStart? ==> s.main.added <= THREADS_COUNT && forall t :: 0 <= t < |s.threads| ==> s.threads[t] == WantContext)
    && (s.shouldTerminate <==> s.main.WantSnapshot? || s.main.InSnapshot? || s.main.Waiting? || s.main.Done?)
    && (s.main.Waiting? ==> s.main.joined <= THREADS_COUNT)
    && (s.main.Waiting? || s.main.Done? ==>
      && |s.snapshot| == THREADS_COUNT && NoDuplicates(s.snapshot)
      && forall t :: t in s.snapshot ==> t < |s.threads|)
  }

  ghost predicate Inv(s: State) {
    MutexInv(s) && DetachInv(s) && PoolInv(s) && MainInv(s)
  }

  lemma NoMidRespawn(s: State)
    requires MutexInv(s) && !(s.mutex.Some? && s.mutex.value.ThreadHolds?)
    ensures !MidRespawn(s)
  {
    assert Holding(InAdd);
  }

  lemma OneHolder(s: State, t: nat, u: nat)
    requires MutexInv(s) && t < |s.threads| && u < |s.threads| && Holding(s.threads[t]) && Holding(s.threads[u])
    ensures t == u
  {
  }

  /** A thread holds the mutex after a step exactly if it took it, or had it and is in the middle of a respawn. */
  lemma HoldingNext(pc: PC, shouldTerminate: bool, respawn: bool)
    ensures Holding(NextPC(pc, shouldTerminate, respawn)) ==> Wanting(pc) || Holding(pc)
    ensures Wanting(pc) ==> !Holding(pc) && Holding(NextPC(pc, shouldTerminate, respawn))
    ensures !Wanting(pc) && !Holding(pc) ==> !Holding(NextPC(pc, shouldTerminate, respawn))
  {
  }

  lemma ThreadStepKeepsMutex(s: State, t: nat, s': State, respawn: bool)
    requires MutexInv(s) && Enabled(s, t) && s' == Successor(s, t, respawn)
    ensures MutexInv(s')
  {
    HoldingNext(s.threads[t], s.shouldTerminate, respawn);
    forall u | 0 <= u < |s'.threads| ensures Holding(s'.threads[u]) <==> s'.mutex == Some(ThreadHolds(u)) {
      if u < |s.threads| && u != t {
        assert s'.threads[u] == s.threads[u];
        if Holding(s.threads[t]) { assert !Holding(s.threads[u]); }
      } else if u == |s.threads| {
        assert s'.threads[u] == WantContext && Holding(s.threads[t]);
      }
    }
  }

  /** May a thread at pc be detached, and must it be? */
  predicate DetachedAt(pc: PC, detached: bool) {
    match pc
    case InRemove => detached
    case InAdd => detached
    case InUnlock => detached
    case WantCleanup => true
    case InCleanup => true
    case Exited => true
    case _ => !detached
  }

  lemma DetachedNext(pc: PC, detached: bool, shouldTerminate: bool, respawn: bool)
    requires DetachedAt(pc, detached)
    ensures DetachedAt(NextPC(pc, shouldTerminate, respawn), detached || pc == InDetach)
  {
  }

  lemma ThreadStepKeepsDetach(s: State, t: nat, s': State, respawn: bool)
    requires DetachInv(s) && Enabled(s, t) && s' == Successor(s, t, respawn)
    ensures DetachInv(s')
  {
    DetachedNext(s.threads[t], t in s.detached, s.shouldTerminate, respawn);
    forall u | 0 <= u < |s'.threads| ensures DetachedAt(s'.threads[u], u in s'.detached) {
      if u < |s.threads| && u != t {
        assert s'.threads[u] == s.threads[u];
      }
    }
  }

  lemma ThreadStepKeepsMain(s: State, t: nat, s': State)
    requires MutexInv(s) && MainInv(s) && ThreadStep(s, t, s')
    ensures MainInv(s')
  {
  }

  lemma AddNext(pc: PC, shouldTerminate: bool, respawn: bool)
    ensures NextPC(pc, shouldTerminate, respawn) == InAdd <==> pc == InRemove
    ensures NextPC(pc, shouldTerminate, respawn) == InRemove <==> pc == InDetach
  {
  }

  /** While one thread is about to add its replacement no other thread is. */
  lemma OnlyOneMidRespawn(s: State, t: nat)
    requires MutexInv(s) && t < |s.threads| && Holding(s.threads[t])
    ensures MidRespawn(s) <==> s.threads[t] == InAdd
  {
    assert Holding(InAdd);
    if u :| 0 <= u < |s.threads| && s.threads[u] == InAdd {
      OneHolder(s, t, u);
    }
  }

  lemma ThreadStepKeepsMembers(s: State, t: nat, s': State, respawn: bool)
    requires PoolInv(s) && DetachInv(s) && Enabled(s, t) && s' == Successor(s, t, respawn) && s.main != Done
    ensures forall u :: u in s'.pool ==> u < |s'.threads|
    ensures forall u :: 0 <= u < |s'.threads| ==> (u in s'.pool <==> u !in s'.detached || s'.threads[u] == InRemove)
  {
    AddNext(s.threads[t], s.shouldTerminate, respawn);
    forall u | 0 <= u < |s'.threads| ensures u in s'.pool <==> u !in s'.detached || s'.threads[u] == InRemove {
      if u < |s.threads| && u != t {
        assert s'.threads[u] == s.threads[u];
      } else if u == t {
        assert DetachedAt(s.threads[t], t in s.detached);
      }
    }
  }

  lemma ThreadStepKeepsPool(s: State, t: nat, s': State, respawn: bool)
    requires Inv(s) && Enabled(s, t) && s' == Successor(s, t, respawn)
    ensures PoolInv(s')
  {
    var pc := s.threads[t];
    if s.main == Done {
      assert forall u :: u in s'.pool ==> u in s.pool || u == |s.threads|;
    } else {
      ThreadStepKeepsMembers(s, t, s', respawn);
      ThreadStepKeepsMutex(s, t, s', respawn);
      AddNext(pc, s.shouldTerminate, respawn);
      if pc == InRemove {
        OnlyOneMidRespawn(s, t);
        OnlyOneMidRespawn(s', t);
        assert t in s.pool && s'.pool == s.pool - {t};
      } else if pc == InAdd {
        OnlyOneMidRespawn(s, t);
        OnlyOneMidRespawn(s', t);
        assert |s'.pool| == |s.pool| + 1;
      } else {
        SameMidRespawn(s, t, s');
      }
    }
  }

  lemma SameMidRespawn(s: State, t: nat, s': State)
    requires t < |s.threads| && |s'.threads| == |s.threads| && s'.threads == s.threads[t := s'.threads[t]]
    requires s.threads[t] != InAdd && s'.threads[t] != InAdd
    ensures MidRespawn(s) <==> MidRespawn(s')
  {
    if u :| 0 <= u < |s.threads| && s.threads[u] == InAdd { assert s'.threads[u] == InAdd; }
    if u :| 0 <= u < |s'.threads| && s'.threads[u] == InAdd { assert s.threads[u] == InAdd; }
  }

  lemma MainStepKeepsMutexAndDetach(s: State, s': State)
    requires Inv(s) && MainStep(s, s')
    ensures MutexInv(s') && DetachInv(s')
  {
  }

  lemma StartStepKeepsPool(s: State, s': State)
    requires Inv(s) && MainStep(s, s') && s.main.InStart? && s.main.added < THREADS_COUNT
    ensures PoolInv(s')
  {
    assert s'.threads == s.threads + [WantContext] && s'.pool == s.pool + {|s.threads|} && s'.detached == s.detached;
    assert |s.threads| !in s.pool;
    assert |s'.pool| == |s.pool| + 1;
  }

  lemma OtherStepKeepsPool(s: State, s': State)
    requires PoolInv(s) && MainInv(s) && s'.threads == s.threads && s'.detached == s.detached && MainStep(s, s')
    requires (s.main.InStart? || s.main.WantStart?) ==> !MidRespawn(s)
    requires s.main.InStart? ==> s.main.added == THREADS_COUNT
    ensures PoolInv(s')
  {
    assert MidRespawn(s') <==> MidRespawn(s);
    hide MidRespawn;
  }

  lemma MainStepKeepsPool(s: State, s': State)
    requires Inv(s) && MainStep(s, s')
    ensures PoolInv(s')
  {
    if s.main.InStart? && s.main.added < THREADS_COUNT {
      StartStepKeepsPool(s, s');
    } else {
      OtherStepKeepsPool(s, s');
    }
  }

  lemma MainStepKeepsMain(s: State, s': State)
    requires Inv(s) && MainStep(s, s')
    ensures MainInv(s')
  {
    if s.main.InSnapshot? {
      NoMidRespawn(s);
      SameSize(s'.snapshot, s.pool);
    }
  }

  lemma MainStepKeepsInv(s: State, s': State)
    requires Inv(s) && MainStep(s, s')
    ensures Inv(s')
  {
    MainStepKeepsMutexAndDetach(s, s');
    MainStepKeepsPool(s, s');
    MainStepKeepsMain(s, s');
  }

  lemma SameSize(q: seq<nat>, p: set<nat>)
    requires NoDuplicates(q) && forall t :: t in q <==> t in p
    ensures |q| == |p|
    decreases |q|
  {
    if q == [] {
      assert p == {};
    } else {
      var x := q[0];
      assert forall t :: t in q[1..] <==> t in p - {x} by {
        forall t ensures t in q[1..] <==> t in p - {x} {
          assert t in q <==> t == x || t in q[1..];
          if t in q[1..] { var k :| 1 <= k < |q| && q[k] == t; }
        }
      }
      SameSize(q[1..], p - {x});
    }
  }

  lemma ThreadStepKeepsInv(s: State, t: nat, s': State)
    requires Inv(s) && ThreadStep(s, t, s')
    ensures Inv(s')
  {
    var respawn := s' == Successor(s, t, true);
    ThreadStepKeepsMutex(s, t, s', respawn);
    ThreadStepKeepsDetach(s, t, s', respawn);
    ThreadStepKeepsMain(s, t, s');
    ThreadStepKeepsPool(s, t, s', respawn);
  }

  lemma StepKeepsInv(s: State, s': State)
    requires Inv(s) && Step(s, s')
    ensures Inv(s')
  {
    if MainStep(s, s') {
      MainStepKeepsInv(s, s');
    } else {
      var t: nat :| ThreadStep(s, t, s');
      ThreadStepKeepsInv(s, t, s');
    }
  }

  /** The invariant holds all along an execution that starts with it. */
  lemma {:induction false} ExecutionKeepsInv(r: seq<State>, i: nat)
    requires Execution(r) && Inv(r[0]) && i < |r|
    ensures Inv(r[i])
    decreases i
  {
    if i > 0 {
      ExecutionKeepsInv(r, i - 1);
      StepKeepsInv(r[i - 1], r[i]);
    }
  }

  lemma ReachableInv(s: State)
    requires Reachable(s)
    ensures Inv(s)
  {
    var r :| Execution(r) && Init(r[0]) && r[|r| - 1] == s;
    ExecutionKeepsInv(r, |r| - 1);
  }

  // ---------------------------------------------------------------- the set while the threads run

  /** Threads created and not detached. */
  ghost function Attached(s: State): set<nat> {
    set t | 0 <= t < |s.threads| && t !in s.detached
  }

  ghost predicate BetweenStartAndClear(s: State) {
    !s.main.WantStart? && !s.main.InStart? && !s.main.Done?
  }

  /** From the end of startJavaScriptThreads until the final clear, whenever the mutex is free or held by the main
      thread the set has exactly four members: the threads created and not detached. */
  lemma SetIsAttachedThreads(s: State)
    requires Reachable(s) && BetweenStartAndClear(s)
    requires s.mutex.None? || s.mutex.value.MainHolds?
    ensures |s.pool| == THREADS_COUNT && s.pool == Attached(s)
  {
    ReachableInv(s);
    NoMidRespawn(s);
    assert Holding(InRemove);
    assert forall t :: t in s.pool <==> t in Attached(s);
  }

  /** The size assertion in stopJavaScriptThreads holds whenever it is evaluated. */
  lemma SnapshotHasFourThreads(s: State, s': State)
    requires Reachable(s) && s.main.InSnapshot? && MainStep(s, s')
    ensures |s'.snapshot| == THREADS_COUNT
  {
    ReachableInv(s);
    MainStepKeepsInv(s, s');
  }

  /** The accessor of the set is called for each addition at the start, for the copy and for the final clear... */
  predicate MainUsesSet(m: Main) {
    (m.InStart? && m.added < THREADS_COUNT) || m.InSnapshot? || m == Waiting(THREADS_COUNT)
  }

  /** ...and, in a respawning thread, for the removal and for the addition. */
  predicate ThreadUsesSet(pc: PC) {
    pc.InRemove? || pc.InAdd?
  }

  /** The step uses the set, and h is who takes it. */
  ghost predicate UsedBy(s: State, s': State, h: Holder) {
    match h
    case MainHolds => MainStep(s, s') && MainUsesSet(s.main)
    case ThreadHolds(t) => ThreadStep(s, t, s') && ThreadUsesSet(s.threads[t])
  }

  /** The final clear in stopJavaScriptThreads. */
  predicate FinalClear(s: State, h: Holder) {
    h.MainHolds? && s.main == Waiting(THREADS_COUNT)
  }

  /** Nothing else touches the set. */
  lemma ChangesAreUses(s: State, s': State)
    requires Reachable(s) && Step(s, s') && (s'.pool != s.pool || s'.snapshot != s.snapshot)
    ensures exists h :: UsedBy(s, s', h)
  {
    ReachableInv(s);
    if MainStep(s, s') {
      assert UsedBy(s, s', MainHolds);
    } else {
      var t: nat :| ThreadStep(s, t, s');
      assert UsedBy(s, s', ThreadHolds(t));
    }
  }

  /** Who uses the set has the mutex, exactly unless the use is the final clear. What the accessor asserts, that somebody
      has it, fails exactly at a final clear with the mutex free, that is, when no thread is in a critical section. */
  lemma SetIsUsedUnderTheMutex(s: State, s': State, h: Holder)
    requires Reachable(s) && UsedBy(s, s', h)
    ensures s.mutex == Some(h) <==> !FinalClear(s, h)
    ensures s.mutex.Some? <==> !(FinalClear(s, h) && s.mutex.None?)
    ensures FinalClear(s, h) ==> (s.mutex.None? <==> forall t :: 0 <= t < |s.threads| ==> !Holding(s.threads[t]))
  {
    ReachableInv(s);
    match h
    case MainHolds =>
    case ThreadHolds(t) =>
      assert Holding(s.threads[t]);
  }

  // ---------------------------------------------------------------- respawning after the flag is set

  /** A thread that has passed its check of the flag and may still create a replacement. */
  predicate Armed(pc: PC) {
    pc.Deciding? || pc.WantRespawn? || pc.InDetach? || pc.InRemove? || pc.InAdd?
  }

  ghost function ArmedSet(s: State): set<nat> {
    set t | 0 <= t < |s.threads| && Armed(s.threads[t])
  }

  lemma SubsetSize(a: set<nat>, b: set<nat>)
    requires a <= b
    ensures |a| <= |b|
  {
    assert b == a + (b - a);
  }

  lemma AtMostFourArmed(s: State)
    requires Inv(s) && s.main != Done
    ensures |ArmedSet(s)| <= THREADS_COUNT
  {
    if MidRespawn(s) {
      var t :| 0 <= t < |s.threads| && s.threads[t] == InAdd;
      forall u | u in ArmedSet(s) ensures u in s.pool + {t} {
        if s.threads[u] == InAdd { OneHolder(s, t, u); }
      }
      SubsetSize(ArmedSet(s), s.pool + {t});
      assert !s.main.WantStart? && !s.main.InStart?;
    } else {
      forall u | u in ArmedSet(s) ensures u in s.pool {
        assert s.threads[u] != InAdd;
      }
      SubsetSize(ArmedSet(s), s.pool);
    }
  }

  lemma ArmedNext(pc: PC, respawn: bool)
    ensures Armed(NextPC(pc, true, respawn)) ==> Armed(pc)
  {
  }

  /** Once the flag is set no thread becomes armed, and each respawn disarms one. */
  lemma FlaggedStepDisarms(s: State, s': State)
    requires Inv(s) && s.shouldTerminate && Step(s, s')
    ensures s'.shouldTerminate && |s'.threads| >= |s.threads|
    ensures ArmedSet(s') <= ArmedSet(s)
    ensures |s'.threads| + |ArmedSet(s')| <= |s.threads| + |ArmedSet(s)|
  {
    if MainStep(s, s') {
      assert s'.threads == s.threads;
    } else {
      var t: nat :| ThreadStep(s, t, s');
      FlaggedThreadStepDisarms(s, t, s');
    }
  }

  lemma FlaggedThreadStepDisarms(s: State, t: nat, s': State)
    requires s.shouldTerminate && ThreadStep(s, t, s')
    ensures s'.shouldTerminate && |s'.threads| >= |s.threads|
    ensures ArmedSet(s') <= ArmedSet(s)
    ensures |s'.threads| + |ArmedSet(s')| <= |s.threads| + |ArmedSet(s)|
  {
    var respawn := s' == Successor(s, t, true);
    ArmedNext(s.threads[t], respawn);
    forall u | u in ArmedSet(s') ensures u in ArmedSet(s) {
      if u < |s.threads| && u != t { assert s'.threads[u] == s.threads[u]; }
    }
    SubsetSize(ArmedSet(s'), ArmedSet(s));
    if s.threads[t] == InAdd {
      assert s'.threads[t] == InUnlock;
      SubsetSize(ArmedSet(s') + {t}, ArmedSet(s));
    }
  }

  lemma {:induction false} FlaggedExecution(r: seq<State>, i: nat)
    requires Execution(r) && Inv(r[0]) && r[0].shouldTerminate && i < |r|
    ensures Inv(r[i]) && r[i].shouldTerminate && |r[i].threads| >= |r[0].threads|
    ensures ArmedSet(r[i]) <= ArmedSet(r[0])
    ensures |r[i].threads| + |ArmedSet(r[i])| <= |r[0].threads| + |ArmedSet(r[0])|
    decreases i
  {
    ExecutionKeepsInv(r, i);
    if i > 0 {
      FlaggedExecution(r, i - 1);
      FlaggedStepDisarms(r[i - 1], r[i]);
    }
  }

  lemma DoneNeedsFlag(s: State, s': State)
    requires Inv(s) && Step(s, s') && s'.main == Done
    ensures s.shouldTerminate
  {
  }

  /** In every reachable state at most four threads are armed. */
  lemma {:induction false} FewArmed(r: seq<State>, i: nat)
    requires Execution(r) && Init(r[0]) && i < |r|
    ensures |ArmedSet(r[i])| <= THREADS_COUNT
    decreases i
  {
    hide Inv, ArmedSet;
    ExecutionKeepsInv(r, i);
    if r[i].main != Done {
      AtMostFourArmed(r[i]);
    } else {
      FewArmed(r, i - 1);
      ExecutionKeepsInv(r, i - 1);
      DoneNeedsFlag(r[i - 1], r[i]);
      FlaggedStepDisarms(r[i - 1], r[i]);
      SubsetSize(ArmedSet(r[i]), ArmedSet(r[i - 1]));
    }
  }

  /** After the flag is set at most four more threads are created in any execution, and none of them ever gets to
      respawn. */
  lemma FewRespawnsAfterFlag(r: seq<State>, i: nat)
    requires Execution(r) && Reachable(r[0]) && r[0].shouldTerminate && i < |r|
    ensures |r[i].threads| - |r[0].threads| <= THREADS_COUNT
    ensures forall t :: |r[0].threads| <= t < |r[i].threads| ==> !Armed(r[i].threads[t])
  {
    ReachableInv(r[0]);
    FlaggedExecution(r, i);
    var q :| Execution(q) && Init(q[0]) && q[|q| - 1] == r[0];
    FewArmed(q, |q| - 1);
    forall t | |r[0].threads| <= t < |r[i].threads| ensures !Armed(r[i].threads[t]) {
      assert t !in ArmedSet(r[0]);
    }
  }

  // ---------------------------------------------------------------- winding down

  /** An upper bound on the steps left for a thread and the threads it may still create, once the flag is set. */
  function StepsLeft(pc: PC): nat {
    match pc
    case Exited => 0
    case InCleanup => 1
    case WantCleanup => 2
    case InCheck => 3
    case WantCheck => 4
    case InAllocate => 5
    case WantAllocate => 6
    case InEvaluate => 7
    case WantEvaluate => 8
    case InScript => 9
    case WantScript => 10
    case InContext => 11
    case WantContext => 12
    case InUnlock => 3
    case InAdd => 16
    case InRemove => 17
    case InDetach => 18
    case WantRespawn => 19
    case Deciding => 20
  }

  function Measure(threads: seq<PC>): nat {
    if threads == [] then 0 else Measure(threads[..|threads| - 1]) + StepsLeft(threads[|threads| - 1])
  }

  lemma {:induction false} MeasureUpdate(threads: seq<PC>, t: nat, pc: PC)
    requires t < |threads|
    ensures Measure(threads[t := pc]) == Measure(threads) - StepsLeft(threads[t]) + StepsLeft(pc)
    decreases |threads|
  {
    var n := |threads| - 1;
    if t < n {
      assert threads[t := pc][..n] == threads[..n][t := pc];
      MeasureUpdate(threads[..n], t, pc);
    } else {
      assert threads[t := pc][..n] == threads[..n];
    }
  }

  lemma MeasureAppend(threads: seq<PC>, pc: PC)
    ensures Measure(threads + [pc]) == Measure(threads) + StepsLeft(pc)
  {
    assert (threads + [pc])[..|threads|] == threads;
  }

  lemma StepsLeftNext(pc: PC, respawn: bool)
    requires pc != Exited
    ensures StepsLeft(NextPC(pc, true, respawn)) + (if pc == InAdd then StepsLeft(WantContext) else 0) < StepsLeft(pc)
  {
  }

  /** Every thread step after the flag is set lowers the measure; steps of the main thread leave it alone. */
  lemma MeasureDrops(s: State, s': State)
    requires s.shouldTerminate && Inv(s) && Step(s, s')
    ensures MainStep(s, s') ==> s'.threads == s.threads
    ensures !MainStep(s, s') ==> Measure(s'.threads) < Measure(s.threads)
  {
    if !MainStep(s, s') {
      var t: nat :| ThreadStep(s, t, s');
      FlaggedThreadStepMeasure(s, t, s');
    }
  }

  lemma FlaggedThreadStepMeasure(s: State, t: nat, s': State)
    requires s.shouldTerminate && ThreadStep(s, t, s')
    ensures Measure(s'.threads) < Measure(s.threads)
  {
    var respawn := s' == Successor(s, t, true);
    var pc, pc' := s.threads[t], NextPC(s.threads[t], s.shouldTerminate, respawn);
    StepsLeftNext(pc, respawn);
    MeasureUpdate(s.threads, t, pc');
    if pc == InAdd {
      assert s'.threads == s.threads[t := pc'] + [WantContext];
      MeasureAppend(s.threads[t := pc'], WantContext);
    } else {
      assert s'.threads == s.threads[t := pc'];
    }
  }

  /** The number of steps left for the main thread once it has set the flag. */
  function MainStepsLeft(m: Main): nat {
    match m
    case WantSnapshot => 7
    case InSnapshot => 6
    case Waiting(i) => if i <= THREADS_COUNT then 5 - i else 0
    case _ => 0
  }

  /** An execution after the flag is set has a bounded number of steps, of all threads together. */
  lemma {:induction false} FlaggedExecutionsEnd(r: seq<State>)
    requires Execution(r) && Inv(r[0]) && r[0].shouldTerminate
    ensures var s := r[|r| - 1];
      |r| - 1 + Measure(s.threads) + MainStepsLeft(s.main) <= Measure(r[0].threads) + MainStepsLeft(r[0].main)
    decreases |r|
  {
    if |r| > 1 {
      var q, n := r[..|r| - 1], |r| - 2;
      assert q[0] == r[0] && q[n] == r[n];
      assert Step(r[n], r[n + 1]);
      FlaggedExecutionsEnd(q);
      FlaggedExecution(r, n);
      MeasureDrops(r[n], r[n + 1]);
      MainStepsDrop(r[n], r[n + 1]);
    }
  }

  lemma MainStepsDrop(s: State, s': State)
    requires s.shouldTerminate && Inv(s) && Step(s, s')
    ensures MainStep(s, s') ==> MainStepsLeft(s'.main) < MainStepsLeft(s.main)
    ensures !MainStep(s, s') ==> s'.main == s.main
  {
    if !MainStep(s, s') {
      var t: nat :| ThreadStep(s, t, s');
    }
  }

  /** Until all threads have exited one of them can step, unless the main thread has the mutex, and then it can. */
  lemma SomethingCanStep(s: State)
    requires Reachable(s) && s.shouldTerminate
    requires exists t :: 0 <= t < |s.threads| && s.threads[t] != Exited
    ensures if s.mutex == Some(MainHolds) then exists s' :: MainStep(s, s') && s'.mutex.None?
            else exists t: nat, s' :: ThreadStep(s, t, s')
  {
    ReachableInv(s);
    if s.mutex == Some(MainHolds) {
      var q := Listing(s.pool);
      assert MainStep(s, s.(main := Waiting(0), snapshot := q, mutex := None));
    } else if s.mutex.Some? {
      var t := s.mutex.value.t;
      assert Holding(s.threads[t]);
      assert ThreadStep(s, t, Successor(s, t, true));
    } else {
      var t :| 0 <= t < |s.threads| && s.threads[t] != Exited;
      assert !Holding(s.threads[t]);
      assert ThreadStep(s, t, Successor(s, t, true));
    }
  }

  /** After the flag is set nothing gets stuck: some step is possible until the main thread is done and every thread
      ever created has exited. */
  lemma StopsOnlyWhenDone(s: State)
    requires Reachable(s) && s.shouldTerminate
    ensures (exists s' :: Step(s, s')) || (s.main == Done && forall t :: 0 <= t < |s.threads| ==> s.threads[t] == Exited)
  {
    ReachableInv(s);
    if exists t :: 0 <= t < |s.threads| && s.threads[t] != Exited {
      SomethingCanStep(s);
      if s.mutex == Some(MainHolds) {
        var s' :| MainStep(s, s');
        assert Step(s, s');
      } else {
        var u: nat, s' :| ThreadStep(s, u, s');
        assert Step(s, s');
      }
    } else {
      MainCanStep(s);
      if s.main != Done {
        var s' :| MainStep(s, s');
        assert Step(s, s');
      }
    }
  }

  lemma MainCanStep(s: State)
    requires Inv(s) && s.shouldTerminate && forall t :: 0 <= t < |s.threads| ==> s.threads[t] == Exited
    ensures s.main == Done || exists s' :: MainStep(s, s')
  {
    match s.main
    case WantSnapshot =>
      assert s.mutex.Some? && s.mutex.value.ThreadHolds? ==> Holding(s.threads[s.mutex.value.t]);
      assert MainStep(s, s.(main := InSnapshot, mutex := Some(MainHolds)));
    case InSnapshot =>
      var q := Listing(s.pool);
      assert MainStep(s, s.(main := Waiting(0), snapshot := q, mutex := None));
    case Waiting(i) =>
      if i < THREADS_COUNT {
        assert s.snapshot[i] in s.snapshot;
        assert MainStep(s, s.(main := Waiting(i + 1)));
      } else {
        assert MainStep(s, s.(main := Done, pool := {}));
      }
    case _ =>
  }

  /** The elements of a set in some order. */
  lemma Listing(p: set<nat>) returns (q: seq<nat>)
    ensures NoDuplicates(q) && forall t :: t in q <==> t in p
    decreases |p|
  {
    if p == {} {
      q := [];
    } else {
      var x :| x in p;
      var rest := Listing(p - {x});
      q := [x] + rest;
    }
  }

  // ---------------------------------------------------------------- joining

  /** The state right after stopJavaScriptThreads has set the flag. */
  ghost predicate FlagJustSet(s: State) {
    Reachable(s) && s.main.WantSnapshot? && s.mutex.None?
  }

  /** What stopJavaScriptThreads counts on: the threads it waits for are the threads in the set, none of them is
      detached, those already waited for have exited, and at the end all have. */
  ghost predicate Joined(s: State) {
    && (s.main.Waiting? || s.main.Done? ==> forall t :: t in s.snapshot ==> t !in s.detached)
    && (s.main.Waiting? ==>
      && (forall t :: t in s.snapshot <==> t in s.pool)
      && forall j :: 0 <= j < s.main.joined && j < |s.snapshot| && s.snapshot[j] < |s.threads| ==> s.threads[s.snapshot[j]] == Exited)
    && (s.main.Done? ==> forall t :: t in s.snapshot ==> t < |s.threads| && s.threads[t] == Exited)
  }

  ghost predicate Guaranteed(s: State) {
    forall r :: Execution(r) && r[0] == s ==> Joined(r[|r| - 1])
  }

  lemma JoinedMainStep(s: State, s': State)
    requires Inv(s) && Joined(s) && MainStep(s, s')
    ensures Joined(s')
  {
    if s.main.InSnapshot? { SnapshotNotDetached(s, s'); }
  }

  /** A thread that is not armed touches neither the set nor the detached threads. */
  lemma UnarmedStep(s: State, t: nat, s': State)
    requires ThreadStep(s, t, s') && !Armed(s.threads[t])
    ensures s'.pool == s.pool && s'.detached == s.detached && s'.main == s.main && s'.snapshot == s.snapshot
    ensures |s'.threads| == |s.threads|
    ensures forall u :: 0 <= u < |s.threads| && s.threads[u] == Exited ==> s'.threads[u] == Exited
  {
  }

  lemma JoinedStep(s: State, s': State)
    requires Inv(s) && ArmedSet(s) == {} && Joined(s) && Step(s, s')
    ensures Joined(s')
  {
    if MainStep(s, s') {
      JoinedMainStep(s, s');
    } else {
      var t: nat :| ThreadStep(s, t, s');
      assert t !in ArmedSet(s);
      UnarmedStep(s, t, s');
    }
  }

  /** Once the main thread waits, every attached thread is one it waits for. */
  ghost predicate AttachedInSnapshot(s: State) {
    s.main.Waiting? || s.main.Done? ==> forall t :: 0 <= t < |s.threads| && t !in s.detached ==> t in s.snapshot
  }

  lemma AttachedStep(s: State, s': State)
    requires Inv(s) && ArmedSet(s) == {} && AttachedInSnapshot(s) && Step(s, s')
    ensures AttachedInSnapshot(s')
  {
    if !MainStep(s, s') {
      var t: nat :| ThreadStep(s, t, s');
      assert t !in ArmedSet(s);
      UnarmedStep(s, t, s');
    }
  }

  /** The flag is set and nobody is armed: what then holds at every step. */
  ghost predicate Quiet(s: State) {
    Inv(s) && s.shouldTerminate && ArmedSet(s) == {} && Joined(s) && AttachedInSnapshot(s)
  }

  lemma QuietStep(s: State, s': State)
    requires Quiet(s) && Step(s, s')
    ensures Quiet(s')
  {
    StepKeepsInv(s, s');
    FlaggedStepDisarms(s, s');
    JoinedStep(s, s');
    AttachedStep(s, s');
  }

  lemma {:induction false} QuietExecution(r: seq<State>, i: nat)
    requires Execution(r) && Quiet(r[0]) && i < |r|
    ensures Quiet(r[i])
    decreases i
  {
    if i > 0 {
      QuietExecution(r, i - 1);
      QuietStep(r[i - 1], r[i]);
    }
  }

  lemma SnapshotNotDetached(s: State, s': State)
    requires Inv(s) && s.main.InSnapshot? && MainStep(s, s')
    ensures forall t :: t in s'.snapshot ==> t !in s'.detached
  {
    forall t | t in s'.snapshot ensures t !in s'.detached {
      assert t in s.pool && Holding(InRemove);
    }
  }

  /** From the snapshot on, an armed thread that does not hold the mutex can get itself detached. */
  lemma ArmedThreadDetaches(b: State, t: nat) returns (r: seq<State>)
    requires b.mutex.None? && t < |b.threads| && Armed(b.threads[t]) && !Holding(b.threads[t])
    ensures |r| > 0 && r[0] == b && (forall i :: 0 <= i < |r| - 1 ==> Step(r[i], r[i + 1]))
    ensures var e := r[|r| - 1]; e.main == b.main && e.snapshot == b.snapshot && t in e.detached
  {
    var c := if b.threads[t] == Deciding then Successor(b, t, true) else b;
    assert c.threads[t] == WantRespawn && c.mutex.None?;
    var d := Successor(c, t, true);
    assert d.threads[t] == InDetach;
    var e := Successor(d, t, true);
    assert ThreadStep(c, t, d) && ThreadStep(d, t, e);
    if b.threads[t] == Deciding {
      assert ThreadStep(b, t, c);
      r := [b, c, d, e];
    } else {
      r := [b, d, e];
    }
  }

  /** If a thread is armed when the flag is set, some execution detaches it while stopJavaScriptThreads waits for it. */
  lemma ArmedThreadEscapes(s: State, t: nat) returns (r: seq<State>)
    requires FlagJustSet(s) && t in ArmedSet(s)
    ensures Execution(r) && r[0] == s
    ensures var e := r[|r| - 1]; e.main == Waiting(0) && t in e.snapshot && t in e.detached
  {
    ReachableInv(s);
    assert !Holding(s.threads[t]) && t in s.pool;
    var q := Listing(s.pool);
    var a := s.(main := InSnapshot, mutex := Some(MainHolds));
    var b := a.(main := Waiting(0), snapshot := q, mutex := None);
    assert MainStep(s, a) && MainStep(a, b);
    var rest := ArmedThreadDetaches(b, t);
    r := [s, a] + rest;
    forall i | 0 <= i < |r| - 1 ensures Step(r[i], r[i + 1]) {
      if i >= 2 { assert r[i] == rest[i - 2] && r[i + 1] == rest[i - 1]; }
    }
  }

  /** The join guarantee holds from the moment the flag is set if and only if no thread is then between its check of
      the flag and its respawn. */
  lemma JoinGuaranteedIffNoneArmed(s: State)
    requires FlagJustSet(s)
    ensures Guaranteed(s) <==> ArmedSet(s) == {}
  {
    ReachableInv(s);
    if ArmedSet(s) == {} {
      forall r | Execution(r) && r[0] == s ensures Joined(r[|r| - 1]) {
        QuietExecution(r, |r| - 1);
      }
    } else {
      var t :| t in ArmedSet(s);
      var r := ArmedThreadEscapes(s, t);
      assert !Joined(r[|r| - 1]);
    }
  }

  /** In particular, with no thread armed when the flag is set, four different threads have been waited for and all
      of them have exited once stopJavaScriptThreads clears the set. */
  lemma AllFourExited(r: seq<State>)
    requires Execution(r) && FlagJustSet(r[0]) && ArmedSet(r[0]) == {} && r[|r| - 1].main.Done?
    ensures var s := r[|r| - 1];
      && |s.snapshot| == THREADS_COUNT && NoDuplicates(s.snapshot)
      && (forall t :: t in s.snapshot ==> t < |s.threads| && s.threads[t] == Exited && t !in s.detached)
      && (forall t :: 0 <= t < |s.threads| && t !in s.detached ==> t in s.snapshot)
  {
    ReachableInv(r[0]);
    QuietExecution(r, |r| - 1);
  }
}

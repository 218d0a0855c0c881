/** Executions of the thread pool that reach the states its theorems distinguish. */
module ThreadPoolRuns {
  import opened Prelude
  import opened ThreadPool

  // ---------------------------------------------------------------- putting steps together

  lemma StartIsReachable(s: State)
    requires Init(s)
    ensures Reachable(s)
  {
    assert Execution([s]);
  }

  lemma StepIsReachable(s: State, s': State)
    requires Reachable(s) && Step(s, s')
    ensures Reachable(s')
  {
    var r :| Execution(r) && Init(r[0]) && r[|r| - 1] == s;
    var q := r + [s'];
    forall i | 0 <= i < |q| - 1 ensures Step(q[i], q[i + 1]) {
      if i < |r| - 1 { assert q[i] == r[i] && q[i + 1] == r[i + 1]; }
    }
    assert Execution(q) && q[|q| - 1] == s';
  }

  lemma MainMoves(s: State, s': State)
    requires Reachable(s) && MainStep(s, s')
    ensures Reachable(s')
  {
    StepIsReachable(s, s');
  }

  lemma ThreadMoves(s: State, t: nat, respawn: bool)
    requires Reachable(s) && Enabled(s, t)
    ensures Reachable(Successor(s, t, respawn))
  {
    assert ThreadStep(s, t, Successor(s, t, respawn));
    StepIsReachable(s, Successor(s, t, respawn));
  }

  /** The state s with thread t at pc. */
  function At(s: State, t: nat, pc: PC): State
    requires t < |s.threads|
  {
    s.(threads := s.threads[t := pc])
  }

  /** A thread takes the mutex, does its work and releases it. */
  lemma CriticalSection(s: State, t: nat)
    requires Reachable(s) && s.mutex.None? && t < |s.threads| && Wanting(s.threads[t]) && s.threads[t] != WantRespawn
    ensures Reachable(At(s, t, NextPC(NextPC(s.threads[t], s.shouldTerminate, false), s.shouldTerminate, false)))
  {
    var a := Successor(s, t, false);
    var b := Successor(a, t, false);
    ThreadMoves(s, t, false);
    ThreadMoves(a, t, false);
    assert b.threads == s.threads[t := b.threads[t]];
    assert b == At(s, t, b.threads[t]);
  }

  /** The same, from one place in the thread's code to the next. */
  lemma Passes(s: State, t: nat, from: PC, to: PC)
    requires t < |s.threads| && s.mutex.None? && Reachable(At(s, t, from))
    requires Wanting(from) && from != WantRespawn && to == NextPC(NextPC(from, s.shouldTerminate, false), s.shouldTerminate, false)
    ensures Reachable(At(s, t, to))
  {
    hide Reachable;
    CriticalSection(At(s, t, from), t);
    assert At(At(s, t, from), t, to) == At(s, t, to);
  }

  lemma RunsToCheck(s: State, t: nat)
    requires Reachable(s) && s.mutex.None? && t < |s.threads| && s.threads[t] == WantContext
    ensures Reachable(At(s, t, WantCheck))
  {
    hide Reachable;
    assert At(s, t, WantContext) == s;
    Passes(s, t, WantContext, WantScript);
    Passes(s, t, WantScript, WantEvaluate);
    Passes(s, t, WantEvaluate, WantAllocate);
    Passes(s, t, WantAllocate, WantCheck);
  }

  /** Before the flag is set a thread can get past its check. */
  lemma RunsToDeciding(s: State, t: nat)
    requires Reachable(s) && s.mutex.None? && t < |s.threads| && s.threads[t] == WantContext && !s.shouldTerminate
    ensures Reachable(At(s, t, Deciding))
  {
    RunsToCheck(s, t);
    Passes(s, t, WantCheck, Deciding);
  }

  /** After the flag is set it can run to its end. */
  lemma RunsToExit(s: State, t: nat)
    requires Reachable(s) && s.mutex.None? && t < |s.threads| && s.threads[t] == WantContext && s.shouldTerminate
    ensures Reachable(At(s, t, Exited))
  {
    RunsToCheck(s, t);
    Passes(s, t, WantCheck, WantCleanup);
    Passes(s, t, WantCleanup, Exited);
  }

  // ---------------------------------------------------------------- starting and stopping

  const FOUR: set<nat> := {0, 1, 2, 3}

  /** startJavaScriptThreads has run, and no thread has started yet. */
  lemma Started() returns (s: State)
    ensures Reachable(s)
    ensures s == State([WantContext, WantContext, WantContext, WantContext], {}, FOUR, false, None, Running, [])
  {
    var w := WantContext;
    var held := Some(MainHolds);
    var s0 := State([], {}, {}, false, None, WantStart, []);
    var s1 := State([], {}, {}, false, held, InStart(0), []);
    var s2 := State([w], {}, {0}, false, held, InStart(1), []);
    var s3 := State([w, w], {}, {0, 1}, false, held, InStart(2), []);
    var s4 := State([w, w, w], {}, {0, 1, 2}, false, held, InStart(3), []);
    var s5 := State([w, w, w, w], {}, FOUR, false, held, InStart(4), []);
    s := State([w, w, w, w], {}, FOUR, false, None, Running, []);
    StartIsReachable(s0);
    MainMoves(s0, s1);
    MainMoves(s1, s2);
    MainMoves(s2, s3);
    MainMoves(s3, s4);
    MainMoves(s4, s5);
    MainMoves(s5, s);
  }

  /** stopJavaScriptThreads sets the flag. */
  lemma SetsFlag(s: State)
    requires Reachable(s) && s.main.Running? && s.mutex.None?
    ensures FlagJustSet(s.(main := WantSnapshot, shouldTerminate := true))
  {
    var a := s.(main := InFlag, mutex := Some(MainHolds));
    var b := a.(main := WantSnapshot, shouldTerminate := true, mutex := None);
    MainMoves(s, a);
    MainMoves(a, b);
    assert b == s.(main := WantSnapshot, shouldTerminate := true);
  }

  lemma TakesSnapshot(s: State)
    requires Reachable(s) && s.main.WantSnapshot? && s.mutex.None? && s.pool == FOUR
    ensures Reachable(s.(main := Waiting(0), snapshot := [0, 1, 2, 3]))
  {
    var a := s.(main := InSnapshot, mutex := Some(MainHolds));
    var b := a.(main := Waiting(0), snapshot := [0, 1, 2, 3], mutex := None);
    MainMoves(s, a);
    MainMoves(a, b);
    assert b == s.(main := Waiting(0), snapshot := [0, 1, 2, 3]);
  }

  lemma WaitsForAll(s: State)
    requires Reachable(s) && s.main == Waiting(0) && s.snapshot == [0, 1, 2, 3]
    requires WaitReturns(s, 0) && WaitReturns(s, 1) && WaitReturns(s, 2) && WaitReturns(s, 3)
    ensures Reachable(s.(main := Waiting(4)))
  {
    var a, b, c, d := s.(main := Waiting(1)), s.(main := Waiting(2)), s.(main := Waiting(3)), s.(main := Waiting(4));
    MainMoves(s, a);
    MainMoves(a, b);
    MainMoves(b, c);
    MainMoves(c, d);
  }

  /** The state in which the flag has been set, with thread 0 at pc and the others not started. */
  function Flagged(pc: PC): State {
    State([pc, WantContext, WantContext, WantContext], {}, FOUR, true, None, WantSnapshot, [])
  }

  lemma FlaggedIdle()
    ensures FlagJustSet(Flagged(WantContext))
  {
    var s := Started();
    SetsFlag(s);
  }

  lemma FlaggedDeciding()
    ensures FlagJustSet(Flagged(Deciding))
  {
    var s := Started();
    RunsToDeciding(s, 0);
    SetsFlag(At(s, 0, Deciding));
    assert At(s, 0, Deciding).threads == [Deciding, WantContext, WantContext, WantContext];
  }

  // ---------------------------------------------------------------- the executions

  lemma ExecutionTo(s: State) returns (r: seq<State>)
    requires Reachable(s)
    ensures Execution(r) && Init(r[0]) && r[|r| - 1] == s
  {
    r :| Execution(r) && Init(r[0]) && r[|r| - 1] == s;
  }

  /** The flag can be set while a thread is armed, and then the join guarantee fails. */
  lemma FlagSetWithArmedThread() returns (r: seq<State>)
    ensures Execution(r) && Init(r[0])
    ensures var s := r[|r| - 1]; FlagJustSet(s) && ArmedSet(s) != {} && !Guaranteed(s)
  {
    FlaggedDeciding();
    var s := Flagged(Deciding);
    assert 0 in ArmedSet(s);
    JoinGuaranteedIffNoneArmed(s);
    r := ExecutionTo(s);
  }

  /** It can be set while no thread is armed, and then the guarantee holds. */
  lemma FlagSetWithNoneArmed() returns (r: seq<State>)
    ensures Execution(r) && Init(r[0])
    ensures var s := r[|r| - 1]; FlagJustSet(s) && ArmedSet(s) == {} && Guaranteed(s)
  {
    FlaggedIdle();
    var s := Flagged(WantContext);
    assert forall t :: 0 <= t < |s.threads| ==> s.threads[t] == WantContext;
    assert ArmedSet(s) == {};
    JoinGuaranteedIffNoneArmed(s);
    r := ExecutionTo(s);
  }

  /** Threads 1 to 3 run to their ends. */
  lemma OthersExit(s: State)
    requires Reachable(s) && s.mutex.None? && s.shouldTerminate && |s.threads| >= 4
    requires s.threads[1] == s.threads[2] == s.threads[3] == WantContext
    ensures Reachable(s.(threads := s.threads[1 := Exited][2 := Exited][3 := Exited]))
  {
    RunsToExit(s, 1);
    RunsToExit(At(s, 1, Exited), 2);
    RunsToExit(At(At(s, 1, Exited), 2, Exited), 3);
  }

  /** The final clear can be reached with the mutex free, so that what the accessor asserts is false. */
  lemma ClearWithoutMutex() returns (r: seq<State>, s': State)
    ensures Execution(r) && Init(r[0])
    ensures var s := r[|r| - 1]; FinalClear(s, MainHolds) && UsedBy(s, s', MainHolds) && s.mutex.None?
  {
    FlaggedIdle();
    var a := Flagged(WantContext);
    TakesSnapshot(a);
    var b := a.(main := Waiting(0), snapshot := [0, 1, 2, 3]);
    RunsToExit(b, 0);
    var c := At(b, 0, Exited);
    OthersExit(c);
    var d := c.(threads := c.threads[1 := Exited][2 := Exited][3 := Exited]);
    assert forall t: nat :: t < 4 ==> d.threads[t] == Exited;
    WaitsForAll(d);
    var e := d.(main := Waiting(4));
    r := ExecutionTo(e);
    s' := e.(main := Done, pool := {});
  }

  /** Thread 0, past its check, takes the mutex, detaches itself and leaves the set. */
  lemma LeavesSet(s: State)
    requires Reachable(s) && s.mutex.None? && |s.threads| == 4 && s.threads[0] == Deciding && s.pool == FOUR && s.detached == {}
    ensures Reachable(At(s, 0, InAdd).(detached := {0}, pool := {1, 2, 3}, mutex := Some(ThreadHolds(0))))
  {
    var held := Some(ThreadHolds(0));
    var a := At(s, 0, WantRespawn);
    var b := At(s, 0, InDetach).(mutex := held);
    var c := At(s, 0, InRemove).(mutex := held, detached := {0});
    var d := At(s, 0, InAdd).(mutex := held, detached := {0}, pool := {1, 2, 3});
    ThreadMoves(s, 0, true);
    ThreadMoves(a, 0, true);
    assert b == Successor(a, 0, true);
    ThreadMoves(b, 0, true);
    assert c == Successor(b, 0, true);
    ThreadMoves(c, 0, true);
    assert d == Successor(c, 0, true);
  }

  /** It then adds its replacement, releases the mutex and is left waiting to clean up. */
  lemma Respawns(s: State)
    requires Reachable(s) && s.mutex.None? && |s.threads| == 4 && s.threads[0] == Deciding && s.pool == FOUR && s.detached == {}
    ensures Reachable(s.(threads := s.threads[0 := WantCleanup] + [WantContext], detached := {0}, pool := {1, 2, 3, 4}))
  {
    LeavesSet(s);
    var d := At(s, 0, InAdd).(detached := {0}, pool := {1, 2, 3}, mutex := Some(ThreadHolds(0)));
    var e := d.(threads := s.threads[0 := InUnlock] + [WantContext], pool := {1, 2, 3, 4});
    var f := e.(threads := s.threads[0 := WantCleanup] + [WantContext], mutex := None);
    ThreadMoves(d, 0, true);
    assert d.threads[0 := InUnlock] == s.threads[0 := InUnlock];
    assert e == Successor(d, 0, true);
    ThreadMoves(e, 0, true);
    assert f == Successor(e, 0, true);
  }

  /** It can also be reached while a detached thread is cleaning up: the assertion then holds, though the main thread
      does not have the mutex. */
  lemma ClearWhileAnotherHoldsMutex() returns (r: seq<State>, s': State)
    ensures Execution(r) && Init(r[0])
    ensures var s := r[|r| - 1];
      && FinalClear(s, MainHolds) && UsedBy(s, s', MainHolds)
      && s.mutex == Some(ThreadHolds(0)) && 0 in s.detached && 0 in s.snapshot
  {
    FlaggedDeciding();
    var a := Flagged(Deciding);
    TakesSnapshot(a);
    var b := a.(main := Waiting(0), snapshot := [0, 1, 2, 3]);
    Respawns(b);
    var c := b.(threads := [WantCleanup, WantContext, WantContext, WantContext, WantContext],
                detached := {0}, pool := {1, 2, 3, 4});
    assert c.threads == b.threads[0 := WantCleanup] + [WantContext];
    OthersExit(c);
    var d := c.(threads := c.threads[1 := Exited][2 := Exited][3 := Exited]);
    WaitsForAll(d);
    var e := d.(main := Waiting(4));
    ThreadMoves(e, 0, false);
    var f := Successor(e, 0, false);
    r := ExecutionTo(f);
    s' := f.(main := Done, pool := {});
  }
}

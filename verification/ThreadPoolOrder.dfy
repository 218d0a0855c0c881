/** What a thread of the pool does, in order: the critical sections it enters along an execution. */
module ThreadPoolOrder {
  import opened Prelude
  import opened ThreadPool

  // ---------------------------------------------------------------- threads stay alive

  /** The thread is about to end or has ended. */
  predicate Ending(pc: PC) {
    pc == WantCleanup || pc == InCleanup || pc == Exited
  }

  /** Before the flag is set only a thread that has replaced itself ends. */
  ghost predicate AliveInv(s: State) {
    forall t :: 0 <= t < |s.threads| && Ending(s.threads[t]) ==> s.shouldTerminate || t in s.detached
  }

  lemma EndingNext(pc: PC, shouldTerminate: bool, respawn: bool)
    requires Ending(NextPC(pc, shouldTerminate, respawn))
    ensures Ending(pc) || pc == InUnlock || (pc == InCheck && shouldTerminate)
  {
  }

  lemma StepKeepsAlive(s: State, s': State)
    requires Inv(s) && AliveInv(s) && Step(s, s')
    ensures AliveInv(s')
  {
    forall t | 0 <= t < |s'.threads| && Ending(s'.threads[t]) ensures s'.shouldTerminate || t in s'.detached {
      EndsDetached(s, s', t);
    }
  }

  lemma EndsDetached(s: State, s': State, t: nat)
    requires Inv(s) && AliveInv(s) && Step(s, s') && t < |s'.threads| && Ending(s'.threads[t])
    ensures s'.shouldTerminate || t in s'.detached
  {
    if !MainStep(s, s') {
      var u: nat :| ThreadStep(s, u, s');
      var respawn := s' == Successor(s, u, true);
      hide Inv, MainStep, PoolInv, MainInv, MutexInv;
      if t == u {
        EndingNext(s.threads[t], s.shouldTerminate, respawn);
        DetachedBefore(s, t);
      } else if t < |s.threads| {
        assert s'.threads[t] == s.threads[t];
      }
    }
  }

  lemma DetachedBefore(s: State, t: nat)
    requires Inv(s) && t < |s.threads|
    ensures DetachedAt(s.threads[t], t in s.detached)
  {
  }

  lemma {:induction false} ExecutionKeepsAlive(r: seq<State>, i: nat)
    requires Execution(r) && Init(r[0]) && i < |r|
    ensures AliveInv(r[i])
    decreases i
  {
    if i > 0 {
      ExecutionKeepsAlive(r, i - 1);
      ExecutionKeepsInv(r, i - 1);
      StepKeepsAlive(r[i - 1], r[i]);
    }
  }

  /** In every reachable state before the flag is set, a thread that ends is detached. */
  lemma OnlyReplacedThreadsEnd(s: State, t: nat)
    requires Reachable(s) && !s.shouldTerminate && t < |s.threads| && Ending(s.threads[t])
    ensures t in s.detached
  {
    var r :| Execution(r) && Init(r[0]) && r[|r| - 1] == s;
    ExecutionKeepsAlive(r, |r| - 1);
  }

  /** So until the flag is set the set holds four threads that are alive, whenever no JavaScript thread has the mutex. */
  lemma FourLiveThreads(s: State)
    requires Reachable(s) && BetweenStartAndClear(s) && !s.shouldTerminate
    requires s.mutex.None? || s.mutex.value.MainHolds?
    ensures |s.pool| == THREADS_COUNT
    ensures forall t :: t in s.pool ==> t < |s.threads| && !Ending(s.threads[t])
  {
    SetIsAttachedThreads(s);
    forall t | t in s.pool ensures t < |s.threads| && !Ending(s.threads[t]) {
      assert t in Attached(s);
      if Ending(s.threads[t]) { OnlyReplacedThreadsEnd(s, t); }
    }
  }

  // ---------------------------------------------------------------- after the final clear

  /** Once stopJavaScriptThreads has cleared the set, the threads it waited for are out of it for good. */
  ghost predicate ClearedInv(s: State) {
    s.main == Done ==> forall t :: t in s.snapshot ==> t !in s.pool
  }

  lemma StepKeepsCleared(s: State, s': State)
    requires Inv(s) && ClearedInv(s) && Step(s, s')
    ensures ClearedInv(s')
  {
    if !MainStep(s, s') {
      var t: nat :| ThreadStep(s, t, s');
    }
  }

  lemma {:induction false} ClearedThreadsStayOut(r: seq<State>, i: nat)
    requires Execution(r) && Init(r[0]) && i < |r|
    ensures ClearedInv(r[i])
    decreases i
  {
    if i > 0 {
      ClearedThreadsStayOut(r, i - 1);
      ExecutionKeepsInv(r, i - 1);
      StepKeepsCleared(r[i - 1], r[i]);
    }
  }

  // ---------------------------------------------------------------- one step of one thread

  /** In a step a thread stays where it is or moves on by one. */
  predicate Moves(pc: PC, pc': PC) {
    pc' == pc || exists flag, respawn :: pc' == NextPC(pc, flag, respawn)
  }

  lemma StepMoves(s: State, s': State, t: nat)
    requires Inv(s) && Step(s, s')
    ensures |s'.threads| >= |s.threads|
    ensures t < |s.threads| ==> Moves(s.threads[t], s'.threads[t])
    ensures |s.threads| <= t < |s'.threads| ==> s'.threads[t] == WantContext
  {
    if !MainStep(s, s') {
      var u: nat :| ThreadStep(s, u, s');
      hide Inv, MainStep;
      ThreadMoves(s, u, s', s' == Successor(s, u, true), t);
    }
  }

  lemma ThreadMoves(s: State, u: nat, s': State, respawn: bool, t: nat)
    requires u < |s.threads| && s' == Successor(s, u, respawn)
    ensures |s'.threads| >= |s.threads|
    ensures t < |s.threads| ==> Moves(s.threads[t], s'.threads[t])
    ensures |s.threads| <= t < |s'.threads| ==> s'.threads[t] == WantContext
  {
    hide NextPC;
    if t == u {
      assert s'.threads[t] == NextPC(s.threads[t], s.shouldTerminate, respawn);
    }
  }

  /** The same at step k of an execution. */
  lemma ExecutionMoves(r: seq<State>, k: nat, t: nat)
    requires Execution(r) && Inv(r[0]) && k + 1 < |r|
    ensures |r[k + 1].threads| >= |r[k].threads|
    ensures t < |r[k].threads| ==> Moves(r[k].threads[t], r[k + 1].threads[t])
    ensures |r[k].threads| <= t < |r[k + 1].threads| ==> r[k + 1].threads[t] == WantContext
  {
    ExecutionKeepsInv(r, k);
    assert Step(r[k], r[k + 1]);
    hide *;
    StepMoves(r[k], r[k + 1], t);
  }

  // ---------------------------------------------------------------- the loop

  predicate Starting(pc: PC) {
    pc == WantContext || pc == InContext || pc == WantScript || pc == InScript
  }

  /** A thread that has its context and its script does not make them again. */
  lemma {:induction false} StartsOnce(r: seq<State>, t: nat, i: nat, j: nat)
    requires Execution(r) && Inv(r[0]) && i <= j < |r| && t < |r[i].threads| && !Starting(r[i].threads[t])
    ensures t < |r[j].threads| && !Starting(r[j].threads[t])
    decreases j
  {
    hide *;
    if i < j {
      StartsOnce(r, t, i, j - 1);
      ExecutionMoves(r, j - 1, t);
      StartingNext(r[j - 1].threads[t], r[j].threads[t]);
    }
  }

  lemma StartingNext(pc: PC, pc': PC)
    requires Moves(pc, pc') && !Starting(pc)
    ensures !Starting(pc')
  {
  }

  ghost predicate Visits(r: seq<State>, t: nat, i: nat, j: nat, pc: PC) {
    exists k :: i < k < j && k < |r| && VisitsAt(r, t, k, pc)
  }

  predicate VisitsAt(r: seq<State>, t: nat, k: nat, pc: PC) {
    k < |r| && t < |r[k].threads| && r[k].threads[t] == pc
  }

  /** Between i and j the thread evaluates the script and then allocates. */
  ghost predicate EvaluatesAndAllocates(r: seq<State>, t: nat, i: nat, j: nat) {
    exists a, b :: i < a < b < j && VisitsAt(r, t, a, InEvaluate) && VisitsAt(r, t, b, InAllocate)
  }

  /** What a thread that has left Deciding at i has done when it is at pc at k. */
  ghost predicate DoneSince(r: seq<State>, t: nat, i: nat, k: nat, pc: PC) {
    match pc
    case WantEvaluate => true
    case InEvaluate => true
    case WantAllocate => Visits(r, t, i, k, InEvaluate)
    case InAllocate => Visits(r, t, i, k, InEvaluate)
    case WantCheck => EvaluatesAndAllocates(r, t, i, k)
    case InCheck => EvaluatesAndAllocates(r, t, i, k)
    case Deciding => EvaluatesAndAllocates(r, t, i, k)
    case _ => !Starting(pc)
  }

  lemma DoneStays(r: seq<State>, t: nat, i: nat, k: nat, pc: PC)
    requires DoneSince(r, t, i, k, pc)
    ensures DoneSince(r, t, i, k + 1, pc)
  {
    if EvaluatesAndAllocates(r, t, i, k) {
      var a, b :| i < a < b < k && VisitsAt(r, t, a, InEvaluate) && VisitsAt(r, t, b, InAllocate);
      assert EvaluatesAndAllocates(r, t, i, k + 1);
    }
  }

  lemma DoneMoves(r: seq<State>, t: nat, i: nat, k: nat, pc: PC, pc': PC)
    requires i < k < |r| && t < |r[k].threads| && r[k].threads[t] == pc && DoneSince(r, t, i, k, pc) && Moves(pc, pc')
    ensures DoneSince(r, t, i, k + 1, pc')
  {
    DoneStays(r, t, i, k, pc);
    assert VisitsAt(r, t, k, pc);
    if pc == InEvaluate && pc' != pc {
      assert Visits(r, t, i, k + 1, InEvaluate);
    } else if pc == InAllocate && pc' != pc {
      var a :| i < a < k && a < |r| && VisitsAt(r, t, a, InEvaluate);
      assert EvaluatesAndAllocates(r, t, i, k + 1);
    }
  }

  lemma {:induction false} DoneSinceDeciding(r: seq<State>, t: nat, i: nat, k: nat)
    requires Execution(r) && Inv(r[0]) && i + 1 <= k < |r|
    requires VisitsAt(r, t, i, Deciding) && !VisitsAt(r, t, i + 1, Deciding)
    ensures t < |r[k].threads| && DoneSince(r, t, i, k, r[k].threads[t])
    decreases k
  {
    hide *;
    ExecutionMoves(r, k - 1, t);
    if i + 1 == k {
      LeavesDeciding(r, t, i);
    } else {
      DoneSinceDeciding(r, t, i, k - 1);
      DoneMoves(r, t, i, k - 1, r[k - 1].threads[t], r[k].threads[t]);
    }
  }

  lemma LeavesDeciding(r: seq<State>, t: nat, i: nat)
    requires i + 1 < |r| && |r[i].threads| <= |r[i + 1].threads|
    requires t < |r[i].threads| ==> Moves(r[i].threads[t], r[i + 1].threads[t])
    requires VisitsAt(r, t, i, Deciding) && !VisitsAt(r, t, i + 1, Deciding)
    ensures t < |r[i + 1].threads| && DoneSince(r, t, i, i + 1, r[i + 1].threads[t])
  {
  }

  /** A thread that leaves Deciding and comes back to it has evaluated the script and allocated in between. */
  lemma EachRoundWorks(r: seq<State>, t: nat, i: nat, j: nat)
    requires Execution(r) && Inv(r[0]) && i + 1 < j < |r|
    requires VisitsAt(r, t, i, Deciding) && !VisitsAt(r, t, i + 1, Deciding) && VisitsAt(r, t, j, Deciding)
    ensures EvaluatesAndAllocates(r, t, i, j)
  {
    DoneSinceDeciding(r, t, i, j);
  }

  // ---------------------------------------------------------------- the whole life of a thread

  datatype Section = MakeContext | MakeScript | Evaluate | Allocate | Check | Replace | Cleanup

  /** The critical section that starts at pc. */
  function SectionOf(pc: PC): seq<Section> {
    match pc
    case InContext => [MakeContext]
    case InScript => [MakeScript]
    case InEvaluate => [Evaluate]
    case InAllocate => [Allocate]
    case InCheck => [Check]
    case InDetach => [Replace]
    case InCleanup => [Cleanup]
    case _ => []
  }

  /** The critical sections thread t enters along an execution. */
  function Sections(r: seq<State>, t: nat): seq<Section>
    requires |r| > 0
  {
    if |r| == 1 then []
    else
      var s, s' := r[|r| - 2], r[|r| - 1];
      Sections(r[..|r| - 1], t) +
      if t < |s.threads| && t < |s'.threads| && s'.threads[t] != s.threads[t] then SectionOf(s'.threads[t]) else []
  }

  /** Make the context and the script, then n times evaluate, allocate, check. */
  function Rounds(n: nat): seq<Section> {
    if n == 0 then [MakeContext, MakeScript] else Rounds(n - 1) + [Evaluate, Allocate, Check]
  }

  /** What a thread at pc has done: n full rounds, some of the next one, and then perhaps its replacement. */
  predicate HasDone(pc: PC, n: nat, w: seq<Section>) {
    match pc
    case WantContext => w == []
    case InContext => w == [MakeContext]
    case WantScript => w == [MakeContext]
    case InScript => w == Rounds(0)
    case WantEvaluate => w == Rounds(n)
    case InEvaluate => w == Rounds(n) + [Evaluate]
    case WantAllocate => w == Rounds(n) + [Evaluate]
    case InAllocate => w == Rounds(n) + [Evaluate, Allocate]
    case WantCheck => w == Rounds(n) + [Evaluate, Allocate]
    case InCheck => w == Rounds(n + 1)
    case Deciding => w == Rounds(n + 1)
    case WantRespawn => w == Rounds(n + 1)
    case InDetach => w == Rounds(n + 1) + [Replace]
    case InRemove => w == Rounds(n + 1) + [Replace]
    case InAdd => w == Rounds(n + 1) + [Replace]
    case InUnlock => w == Rounds(n + 1) + [Replace]
    case WantCleanup => w == Rounds(n + 1) || w == Rounds(n + 1) + [Replace]
    case InCleanup => w == Rounds(n + 1) + [Cleanup] || w == Rounds(n + 1) + [Replace, Cleanup]
    case Exited => w == Rounds(n + 1) + [Cleanup] || w == Rounds(n + 1) + [Replace, Cleanup]
  }

  lemma HasDoneNext(pc: PC, n: nat, w: seq<Section>, flag: bool, respawn: bool) returns (m: nat)
    requires HasDone(pc, n, w) && pc != Exited
    ensures var pc' := NextPC(pc, flag, respawn); pc' != pc && HasDone(pc', m, w + SectionOf(pc'))
  {
    var pc' := NextPC(pc, flag, respawn);
    m := if pc == InScript then 0 else if pc == Deciding && pc' == WantEvaluate then n + 1 else n;
    assert [Evaluate] + [Allocate] == [Evaluate, Allocate];
    assert w + [] == w;
  }

  lemma {:induction false} ThreadHasDone(r: seq<State>, t: nat) returns (n: nat)
    requires Execution(r) && Init(r[0]) && t < |r[|r| - 1].threads|
    ensures HasDone(r[|r| - 1].threads[t], n, Sections(r, t))
    decreases |r|
  {
    n := 0;
    if |r| > 1 {
      var q, k := r[..|r| - 1], |r| - 2;
      assert q[0] == r[0] && q[|q| - 1] == r[k] && Step(r[k], r[k + 1]);
      ExecutionMoves(r, k, t);
      if t < |r[k].threads| {
        n := ThreadHasDone(q, t);
        var pc, pc' := r[k].threads[t], r[k + 1].threads[t];
        if pc' == pc {
          assert Sections(r, t) == Sections(q, t) + [] == Sections(q, t);
        } else {
          var flag, respawn :| pc' == NextPC(pc, flag, respawn);
          n := HasDoneNext(pc, n, Sections(q, t), flag, respawn);
        }
      } else {
        NothingBeforeCreation(q, t);
      }
    }
  }

  lemma {:induction false} NothingBeforeCreation(r: seq<State>, t: nat)
    requires Execution(r) && Init(r[0]) && t >= |r[|r| - 1].threads|
    ensures Sections(r, t) == []
    decreases |r|
  {
    if |r| > 1 {
      var q, k := r[..|r| - 1], |r| - 2;
      assert q[0] == r[0] && q[|q| - 1] == r[k] && Step(r[k], r[k + 1]);
      ExecutionMoves(r, k, t);
      NothingBeforeCreation(q, t);
    }
  }

  /** The life of a thread: it makes its context and its script once, then goes round evaluating, allocating and
      checking, at least once, and at the end may replace itself before it cleans up. */
  ghost predicate Life(w: seq<Section>, n: nat) {
    w == Rounds(n + 1) + [Cleanup] || w == Rounds(n + 1) + [Replace, Cleanup]
  }

  /** In every execution what a thread has done is the beginning of such a life, and all of it once it has exited. */
  lemma ThreadsLiveInOrder(r: seq<State>, t: nat)
    requires Execution(r) && Init(r[0]) && t < |r[|r| - 1].threads|
    ensures exists n, w :: Life(w, n) && Sections(r, t) <= w
    ensures r[|r| - 1].threads[t] == Exited ==> exists n :: Life(Sections(r, t), n)
  {
    var n := ThreadHasDone(r, t);
    BeginningOfLife(r[|r| - 1].threads[t], n, Sections(r, t));
  }

  lemma BeginningOfLife(pc: PC, n: nat, w: seq<Section>)
    requires HasDone(pc, n, w)
    ensures exists m, v :: Life(v, m) && w <= v
    ensures pc == Exited ==> Life(w, n)
  {
    var plain, replaced := Rounds(n + 1) + [Cleanup], Rounds(n + 1) + [Replace, Cleanup];
    assert Life(plain, n) && Life(replaced, n);
    RoundsBegin(n);
    if w <= plain {
    } else {
      assert w <= replaced;
    }
  }

  lemma {:induction false} RoundsBegin(n: nat)
    ensures [MakeContext, MakeScript] <= Rounds(n)
    decreases n
  {
    if n > 0 { RoundsBegin(n - 1); }
  }
}

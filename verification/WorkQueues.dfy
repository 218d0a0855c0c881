/** Queues of work items that run until one of them starts a load: one on a fixed array, one on a deque. */
module WorkQueues {
  import opened Prelude

  datatype Item = Item(id: nat, startsLoad: bool)

  /** The items waiting, whether new items are turned away, and what has happened so far: the items deleted after they
      waited, those turned away and deleted at once, those invoked, and the results of the runs. */
  datatype Fifo = Fifo(
    items: seq<Item>, closed: bool,
    left: seq<Item>, rejected: seq<Item>, invoked: seq<Item>, results: seq<bool>)

  // ---------------------------------------------------------------- the operations on sequences

  function Submit(s: Fifo, item: Item): Fifo {
    if s.closed then s.(rejected := s.rejected + [item]) else s.(items := s.items + [item])
  }

  function Clear(s: Fifo): Fifo {
    s.(items := [], left := s.left + s.items)
  }

  /** The length of the shortest prefix that ends in an item that starts a load; of the whole if there is none. */
  function RunLength(items: seq<Item>): (n: nat)
    ensures n <= |items|
    ensures forall i :: 0 <= i < n - 1 ==> !items[i].startsLoad
    ensures n < |items| ==> n > 0 && items[n - 1].startsLoad
  {
    if items == [] then 0 else if items[0].startsLoad then 1 else 1 + RunLength(items[1..])
  }

  ghost predicate StartsLoad(items: seq<Item>) {
    exists item :: item in items && item.startsLoad
  }

  ghost function Process(s: Fifo): Fifo {
    var n := RunLength(s.items);
    s.(items := s.items[n..], left := s.left + s.items[..n], invoked := s.invoked + s.items[..n],
       results := s.results + [!StartsLoad(s.items)])
  }

  // ---------------------------------------------------------------- the array queue

  const QUEUE_LENGTH := 1024

  function Values(slots: seq<Option<Item>>): (r: seq<Item>)
    requires forall i :: 0 <= i < |slots| ==> slots[i].Some?
    ensures |r| == |slots| && forall i :: 0 <= i < |r| ==> r[i] == slots[i].value
  {
    seq(|slots|, i requires 0 <= i < |slots| => slots[i].value)
  }

  class WorkQueue {
    const theQueue: array<Option<Item>>
    var startOfQueue: nat
    var endOfQueue: nat
    var frozen: bool
    ghost var left: seq<Item>
    ghost var rejected: seq<Item>
    ghost var invoked: seq<Item>
    ghost var results: seq<bool>

    ghost predicate Valid()
      reads this`startOfQueue, this`endOfQueue, theQueue
    {
      && theQueue.Length == QUEUE_LENGTH
      && startOfQueue <= endOfQueue <= QUEUE_LENGTH
      && forall i :: startOfQueue <= i < endOfQueue ==> theQueue[i].Some?
    }

    ghost function Contents(): seq<Item>
      reads this`startOfQueue, this`endOfQueue, theQueue
      requires Valid()
    {
      Values(theQueue[startOfQueue..endOfQueue])
    }

    ghost function State(): Fifo
      reads this, theQueue
      requires Valid()
    {
      Fifo(Contents(), frozen, left, rejected, invoked, results)
    }

    constructor ()
      ensures Valid() && fresh(theQueue) && State() == Fifo([], false, [], [], [], []) && endOfQueue == 0
    {
      theQueue := new Option<Item>[QUEUE_LENGTH];
      startOfQueue, endOfQueue, frozen := 0, 0, false;
      left, rejected, invoked, results := [], [], [], [];
    }

    method SetFrozen(b: bool)
      requires Valid()
      modifies this`frozen
      ensures Valid() && State() == old(State()).(closed := b)
    {
      frozen := b;
    }

    /** The array must have room: endOfQueue counts the items accepted since the last clear. */
    method Queue(item: Item)
      requires Valid() && endOfQueue < QUEUE_LENGTH
      modifies this`endOfQueue, this`rejected, theQueue
      ensures Valid() && State() == Submit(old(State()), item)
      ensures endOfQueue == if old(State()).closed then old(endOfQueue) else old(endOfQueue) + 1
    {
      if frozen {
        rejected := rejected + [item];
        return;
      }
      theQueue[endOfQueue] := Some(item);
      endOfQueue := endOfQueue + 1;
    }

    method Dequeue() returns (item: Option<Item>)
      requires Valid()
      modifies this`startOfQueue
      ensures Valid()
      ensures match item
        case None => old(Contents()) == [] && startOfQueue == old(startOfQueue)
        case Some(x) => old(Contents()) == [x] + Contents()
    {
      if startOfQueue == endOfQueue {
        return None;
      }
      item := theQueue[startOfQueue];
      startOfQueue := startOfQueue + 1;
    }

    function Count(): (n: nat)
      reads this, theQueue
      requires Valid()
      ensures n == |Contents()|
    {
      endOfQueue - startOfQueue
    }

    method ClearQueue()
      requires Valid()
      modifies this`startOfQueue, this`endOfQueue, this`left, theQueue
      ensures Valid() && State() == Clear(old(State())) && endOfQueue == 0
    {
      ghost var items := Contents();
      ghost var before := left;
      var i := startOfQueue;
      while i < endOfQueue
        invariant startOfQueue <= i <= endOfQueue <= theQueue.Length && |items| == endOfQueue - startOfQueue
        invariant forall k :: i <= k < endOfQueue ==> theQueue[k] == Some(items[k - startOfQueue])
        invariant left == before + items[..i - startOfQueue]
      {
        left := left + [theQueue[i].value];
        theQueue[i] := None;
        i := i + 1;
      }
      assert items[..i - startOfQueue] == items;
      startOfQueue := 0;
      endOfQueue := 0;
    }

    /** True if all work is done, false if an item started a load. */
    method ProcessWork() returns (done: bool)
      requires Valid()
      modifies this`startOfQueue, this`left, this`invoked, this`results
      ensures Valid() && State() == Process(old(State())) && endOfQueue == old(endOfQueue)
      ensures done == !StartsLoad(old(State()).items)
    {
      hide Contents, RanUpTo;
      ghost var items := Contents();
      RanNothing(items);
      var startedLoad := false;
      ghost var n := 0;
      while !startedLoad && Count() > 0
        invariant Valid() && n <= |items|
        invariant Contents() == items[n..]
        invariant left == old(left) + items[..n] && invoked == old(invoked) + items[..n]
        invariant RanUpTo(items, n, startedLoad) && results == old(results)
        decreases !startedLoad, |items| - n
      {
        var item := Dequeue();
        TakeOne(items, n, item.value, Contents());
        startedLoad := item.value.startsLoad;
        invoked := invoked + [item.value];
        left := left + [item.value];
        n := n + 1;
      }
      done := !startedLoad;
      RunLengthIs(items, n, startedLoad);
      results := results + [done];
    }
  }

  /** The first n items have been run, none of them started a load except, if startedLoad, the last. */
  ghost predicate RanUpTo(items: seq<Item>, n: nat, startedLoad: bool)
    requires n <= |items|
  {
    && (forall i :: 0 <= i < n - (if startedLoad then 1 else 0) ==> !items[i].startsLoad)
    && (startedLoad ==> n > 0 && items[n - 1].startsLoad)
  }

  lemma RanNothing(items: seq<Item>)
    ensures RanUpTo(items, 0, false) && items[0..] == items && items[..0] == []
  {
  }

  lemma TakeOne(items: seq<Item>, n: nat, item: Item, rest: seq<Item>)
    requires n <= |items| && items[n..] == [item] + rest && RanUpTo(items, n, false)
    ensures n < |items| && item == items[n] && rest == items[n + 1..] && items[..n + 1] == items[..n] + [item]
    ensures RanUpTo(items, n + 1, item.startsLoad)
  {
    assert items[n] == items[n..][0];
    assert items[n + 1..] == items[n..][1..];
  }

  lemma {:induction false} RunLengthIs(items: seq<Item>, n: nat, startedLoad: bool)
    requires n <= |items| && RanUpTo(items, n, startedLoad) && (startedLoad || items[n..] == [])
    ensures RunLength(items) == n
    ensures StartsLoad(items) == startedLoad
    decreases |items|
  {
    if startedLoad {
      assert items[n - 1] in items;
    }
    if items != [] && !items[0].startsLoad {
      RunLengthIs(items[1..], n - 1, startedLoad);
    }
  }

  // ---------------------------------------------------------------- the deque

  class WorkQueueManager {
    var workQueue: seq<Item>
    var processing: bool
    ghost var left: seq<Item>
    ghost var rejected: seq<Item>
    ghost var invoked: seq<Item>
    ghost var results: seq<bool>

    ghost function State(): Fifo
      reads this
    {
      Fifo(workQueue, processing, left, rejected, invoked, results)
    }

    constructor ()
      ensures State() == Fifo([], false, [], [], [], [])
    {
      workQueue, processing := [], false;
      left, rejected, invoked, results := [], [], [], [];
    }

    /** Turned away while a load is in flight. */
    method Enqueue(item: Item)
      modifies this
      ensures State() == Submit(old(State()), item)
    {
      if processing {
        rejected := rejected + [item];
        return;
      }
      workQueue := workQueue + [item];
    }

    method ClearWorkQueue()
      modifies this
      ensures State() == Clear(old(State())).(closed := false)
    {
      processing := false;
      left := left + workQueue;
      workQueue := [];
    }

    /** True if the queue is processed, false if a load was started, which then keeps the queue closed. */
    method ProcessWorkQueue() returns (done: bool)
      modifies this
      ensures State() == Process(old(State())).(closed := !done)
      ensures done == !StartsLoad(old(State()).items)
    {
      hide RanUpTo;
      ghost var items := workQueue;
      ghost var n := 0;
      RanNothing(items);
      processing := false;
      while !processing && workQueue != []
        invariant n <= |items| && workQueue == items[n..]
        invariant left == old(left) + items[..n] && invoked == old(invoked) + items[..n]
        invariant rejected == old(rejected) && results == old(results)
        invariant RanUpTo(items, n, processing)
        decreases !processing, |items| - n
      {
        var item := workQueue[0];
        workQueue := workQueue[1..];
        TakeOne(items, n, item, workQueue);
        processing := item.startsLoad;
        invoked := invoked + [item];
        left := left + [item];
        n := n + 1;
      }
      RunLengthIs(items, n, processing);
      done := !processing;
      results := results + [done];
    }
  }

  // ---------------------------------------------------------------- every sequence of calls

  datatype Op = SubmitOp(item: Item) | ProcessOp | ClearOp | SetClosed(b: bool)

  const EMPTY := Fifo([], false, [], [], [], [])

  ghost function Step(s: Fifo, op: Op): Fifo {
    match op
    case SubmitOp(item) => Submit(s, item)
    case ProcessOp => Process(s)
    case ClearOp => Clear(s)
    case SetClosed(b) => s.(closed := b)
  }

  /** The state after the calls. */
  ghost function Run(ops: seq<Op>): Fifo {
    if ops == [] then EMPTY else Step(Run(ops[..|ops| - 1]), ops[|ops| - 1])
  }

  /** The items submitted, and of these the items that were accepted, in order. */
  function Submitted(ops: seq<Op>): seq<Item> {
    if ops == [] then []
    else
      var last := ops[|ops| - 1];
      Submitted(ops[..|ops| - 1]) + if last.SubmitOp? then [last.item] else []
  }

  ghost function Accepted(ops: seq<Op>): seq<Item> {
    if ops == [] then []
    else
      var init, last := ops[..|ops| - 1], ops[|ops| - 1];
      Accepted(init) + if last.SubmitOp? && !Run(init).closed then [last.item] else []
  }

  function LoadStarters(items: seq<Item>): nat {
    if items == [] then 0
    else LoadStarters(items[..|items| - 1]) + if items[|items| - 1].startsLoad then 1 else 0
  }

  function CountFalse(bs: seq<bool>): nat {
    if bs == [] then 0 else CountFalse(bs[..|bs| - 1]) + if bs[|bs| - 1] then 0 else 1
  }

  /** No operation but Submit changes what has left followed by what waits, and Submit puts an accepted item last. */
  lemma StepInOrder(s: Fifo, op: Op)
    ensures var r := Step(s, op);
      r.left + r.items == s.left + s.items + if op.SubmitOp? && !s.closed then [op.item] else []
  {
    if op.ProcessOp? {
      var n := RunLength(s.items);
      assert s.items == s.items[..n] + s.items[n..];
      assert s.left + s.items[..n] + s.items[n..] == s.left + s.items;
    }
  }

  /** First in, first out: the accepted items are those that have left, in the order they left, and then those that
      still wait. */
  lemma {:induction false} FirstInFirstOut(ops: seq<Op>)
    ensures Accepted(ops) == Run(ops).left + Run(ops).items
    decreases |ops|
  {
    hide Step;
    if ops != [] {
      var init, last := ops[..|ops| - 1], ops[|ops| - 1];
      FirstInFirstOut(init);
      StepInOrder(Run(init), last);
    }
  }

  lemma {:induction false} AcceptedOrRejected(ops: seq<Op>)
    ensures multiset(Submitted(ops)) == multiset(Accepted(ops)) + multiset(Run(ops).rejected)
    decreases |ops|
  {
    hide Process, Clear;
    if ops != [] {
      var init, last := ops[..|ops| - 1], ops[|ops| - 1];
      AcceptedOrRejected(init);
      OnlySubmitRejects(Run(init), last);
    }
  }

  lemma OnlySubmitRejects(s: Fifo, op: Op)
    ensures !op.SubmitOp? ==> Step(s, op).rejected == s.rejected
  {
  }

  /** Every submitted item waits, or has been deleted exactly once: after waiting or when it was turned away. */
  lemma EachItemDeletedOnce(ops: seq<Op>)
    ensures var s := Run(ops);
      multiset(Submitted(ops)) == multiset(s.items) + multiset(s.left) + multiset(s.rejected)
  {
    AcceptedOrRejected(ops);
    FirstInFirstOut(ops);
  }

  // ---------------------------------------------------------------- what is invoked

  /** The items a run takes: the shortest beginning of the queue that ends in an item that starts a load, or all. They
      are invoked and leave, in the same order, and the others stay. A run that returns true leaves nothing. */
  lemma RunInvokesWhatItTakes(s: Fifo) returns (taken: seq<Item>)
    ensures var r := Process(s);
      && s.items == taken + r.items && r.left == s.left + taken && r.invoked == s.invoked + taken
      && r.rejected == s.rejected && r.closed == s.closed
      && (forall i :: 0 <= i < |taken| - 1 ==> !taken[i].startsLoad)
      && |r.results| == |s.results| + 1
      && (if r.results[|s.results|] then r.items == [] && !StartsLoad(taken)
          else taken != [] && taken[|taken| - 1].startsLoad)
  {
    var n := RunLength(s.items);
    taken := s.items[..n];
    assert s.items == taken + s.items[n..];
    if StartsLoad(s.items) {
      var item :| item in s.items && item.startsLoad;
      LoadIsReached(s.items, item);
    } else {
      assert n > 0 ==> s.items[n - 1] in s.items;
      assert forall item :: item in taken ==> item in s.items;
    }
  }

  lemma {:induction false} LoadIsReached(items: seq<Item>, item: Item)
    requires item in items && item.startsLoad
    ensures RunLength(items) > 0 && items[RunLength(items) - 1].startsLoad
    decreases |items|
  {
    if !items[0].startsLoad {
      LoadIsReached(items[1..], item);
    }
  }

  /** The items removed by clears. */
  ghost function Cleared(ops: seq<Op>): seq<Item> {
    if ops == [] then []
    else
      var init, last := ops[..|ops| - 1], ops[|ops| - 1];
      Cleared(init) + if last.ClearOp? then Run(init).items else []
  }

  /** Over every sequence of calls the items that have left are those that were invoked and those that were cleared, each
      as often: what is invoked leaves, and what leaves was invoked unless it was cleared. */
  lemma {:induction false} InvokedItemsLeave(ops: seq<Op>)
    ensures multiset(Run(ops).left) == multiset(Run(ops).invoked) + multiset(Cleared(ops))
    decreases |ops|
  {
    if ops != [] {
      var init, last := ops[..|ops| - 1], ops[|ops| - 1];
      InvokedItemsLeave(init);
      var s := Run(init);
      hide Run, Cleared, Process;
      RunUnfolds(ops);
      if last.ProcessOp? {
        var taken := RunInvokesWhatItTakes(s);
      }
    }
  }

  lemma RunUnfolds(ops: seq<Op>)
    requires ops != []
    ensures var init, last := ops[..|ops| - 1], ops[|ops| - 1];
      && Run(ops) == Step(Run(init), last)
      && Cleared(ops) == Cleared(init) + if last.ClearOp? then Run(init).items else []
  {
  }

  /** If no two submitted items are the same, no item is invoked twice. */
  lemma NothingInvokedTwice(ops: seq<Op>)
    requires NoDuplicates(Submitted(ops))
    ensures NoDuplicates(Run(ops).invoked)
  {
    EachItemDeletedOnce(ops);
    InvokedItemsLeave(ops);
    var sub, inv := Submitted(ops), Run(ops).invoked;
    forall i, j | 0 <= i < j < |inv| ensures inv[i] != inv[j] {
      OnceOnly(sub, inv[i]);
      if inv[i] == inv[j] { TwoPositions(inv, i, j); }
    }
  }

  lemma {:induction false} LoadStartersAdd(a: seq<Item>, b: seq<Item>)
    ensures LoadStarters(a + b) == LoadStarters(a) + LoadStarters(b)
    decreases |b|
  {
    if b == [] {
      assert a + b == a;
    } else {
      assert (a + b)[..|a + b| - 1] == a + b[..|b| - 1];
      LoadStartersAdd(a, b[..|b| - 1]);
    }
  }

  lemma {:induction false} NoLoadStarters(items: seq<Item>)
    requires forall i :: 0 <= i < |items| ==> !items[i].startsLoad
    ensures LoadStarters(items) == 0
    decreases |items|
  {
    if items != [] {
      NoLoadStarters(items[..|items| - 1]);
    }
  }

  lemma OneRunStartsOneLoad(items: seq<Item>)
    ensures LoadStarters(items[..RunLength(items)]) == if StartsLoad(items) then 1 else 0
  {
    var n := RunLength(items);
    var ran := items[..n];
    if n == 0 {
      assert items == [];
    } else {
      assert ran[..n - 1] == items[..n - 1];
      NoLoadStarters(items[..n - 1]);
      if items[n - 1].startsLoad { assert items[n - 1] in items; }
    }
  }

  /** A step adds as many invoked load starters as false results. */
  lemma StepStartsOneLoad(s: Fifo, op: Op)
    ensures LoadStarters(Step(s, op).invoked) - LoadStarters(s.invoked) == CountFalse(Step(s, op).results) - CountFalse(s.results)
  {
    if op.ProcessOp? {
      hide LoadStarters, RunLength, StartsLoad;
      LoadStartersAdd(s.invoked, s.items[..RunLength(s.items)]);
      OneRunStartsOneLoad(s.items);
      var done := !StartsLoad(s.items);
      assert (s.results + [done])[..|s.results|] == s.results;
    }
  }

  /** Runs return false exactly as often as a load is started: no run goes past an item that starts one. */
  lemma {:induction false} OneLoadForEachFalse(ops: seq<Op>)
    ensures LoadStarters(Run(ops).invoked) == CountFalse(Run(ops).results)
    decreases |ops|
  {
    hide Step;
    if ops != [] {
      var init, last := ops[..|ops| - 1], ops[|ops| - 1];
      OneLoadForEachFalse(init);
      StepStartsOneLoad(Run(init), last);
    }
  }

  // ---------------------------------------------------------------- the queues under every sequence of calls

  /** The items accepted since the last clear. */
  ghost function SinceClear(ops: seq<Op>): nat {
    if ops == [] then 0
    else
      var init, last := ops[..|ops| - 1], ops[|ops| - 1];
      if last.ClearOp? then 0
      else SinceClear(init) + if last.SubmitOp? && !Run(init).closed then 1 else 0
  }

  /** Between two clears the array holds all items that are accepted. */
  ghost predicate Fits(ops: seq<Op>) {
    forall i :: 0 <= i < |ops| && ops[i].SubmitOp? ==> SinceClear(ops[..i]) < QUEUE_LENGTH
  }

  lemma NoCalls()
    ensures Run([]) == Fifo([], false, [], [], [], []) && SinceClear([]) == 0
  {
  }

  lemma StepIs(s: Fifo, op: Op)
    ensures match op
      case SubmitOp(item) => Step(s, op) == Submit(s, item)
      case ProcessOp => Step(s, op) == Process(s)
      case ClearOp => Step(s, op) == Clear(s)
      case SetClosed(b) => Step(s, op) == s.(closed := b)
  {
  }

  lemma NextCall(ops: seq<Op>, i: nat)
    requires i < |ops|
    ensures Run(ops[..i + 1]) == Step(Run(ops[..i]), ops[i])
    ensures SinceClear(ops[..i + 1]) ==
      if ops[i].ClearOp? then 0
      else if ops[i].SubmitOp? && !Run(ops[..i]).closed then SinceClear(ops[..i]) + 1
      else SinceClear(ops[..i])
    ensures Fits(ops) && ops[i].SubmitOp? ==> SinceClear(ops[..i]) < QUEUE_LENGTH
  {
    assert ops[..i + 1][..i] == ops[..i];
  }

  /** Any calls that fit, made on a new array queue, have the effect they have on the sequence. */
  method CallQueue(ops: seq<Op>) returns (q: WorkQueue)
    requires Fits(ops)
    ensures fresh(q) && q.Valid() && q.State() == Run(ops)
  {
    hide *;
    q := new WorkQueue();
    var i := 0;
    assert ops[..0] == [];
    NoCalls();
    while i < |ops|
      invariant 0 <= i <= |ops| && fresh(q) && fresh(q.theQueue) && q.Valid()
      invariant q.State() == Run(ops[..i]) && q.endOfQueue == SinceClear(ops[..i])
    {
      NextCall(ops, i);
      StepIs(Run(ops[..i]), ops[i]);
      match ops[i] {
        case SubmitOp(item) => q.Queue(item);
        case ProcessOp => var _ := q.ProcessWork();
        case ClearOp => q.ClearQueue();
        case SetClosed(b) => q.SetFrozen(b);
      }
      i := i + 1;
    }
    assert ops[..i] == ops;
  }

  /** On the deque a run leaves the queue closed while its load is in flight, and a clear opens it. */
  ghost function ManagerStep(s: Fifo, op: Op): Fifo {
    match op
    case ProcessOp => Process(s).(closed := StartsLoad(s.items))
    case ClearOp => Clear(s).(closed := false)
    case _ => Step(s, op)
  }

  ghost function ManagerRun(ops: seq<Op>): Fifo {
    if ops == [] then EMPTY else ManagerStep(ManagerRun(ops[..|ops| - 1]), ops[|ops| - 1])
  }

  /** The same calls with the closing and opening made explicit. */
  ghost function Expanded(ops: seq<Op>): seq<Op> {
    if ops == [] then []
    else
      var init, last := ops[..|ops| - 1], ops[|ops| - 1];
      Expanded(init) + [last] +
      match last
      case ProcessOp => [SetClosed(StartsLoad(ManagerRun(init).items))]
      case ClearOp => [SetClosed(false)]
      case _ => []
  }

  lemma RunOne(ops: seq<Op>, op: Op)
    ensures Run(ops + [op]) == Step(Run(ops), op)
    ensures Submitted(ops + [op]) == Submitted(ops) + if op.SubmitOp? then [op.item] else []
  {
    assert (ops + [op])[..|ops|] == ops;
  }

  /** So what holds of every sequence of calls on the array queue holds of the deque. */
  lemma {:induction false} ManagerIsQueue(ops: seq<Op>)
    ensures ManagerRun(ops) == Run(Expanded(ops))
    ensures Submitted(ops) == Submitted(Expanded(ops))
    decreases |ops|
  {
    if ops != [] {
      var init, last := ops[..|ops| - 1], ops[|ops| - 1];
      ManagerIsQueue(init);
      var e := Expanded(init);
      RunOne(e, last);
      match last
      case ProcessOp => RunOne(e + [last], SetClosed(StartsLoad(ManagerRun(init).items)));
      case ClearOp => RunOne(e + [last], SetClosed(false));
      case _ => assert e + [last] + [] == e + [last];
    }
  }

  /** Over every sequence of calls the deque is first in, first out, deletes each item once and starts one load for
      every run that returns false. */
  lemma ManagerKeepsOrder(ops: seq<Op>)
    ensures var s := ManagerRun(ops);
      && multiset(Submitted(ops)) == multiset(s.items) + multiset(s.left) + multiset(s.rejected)
      && Accepted(Expanded(ops)) == s.left + s.items
      && LoadStarters(s.invoked) == CountFalse(s.results)
  {
    ManagerIsQueue(ops);
    EachItemDeletedOnce(Expanded(ops));
    FirstInFirstOut(Expanded(ops));
    OneLoadForEachFalse(Expanded(ops));
  }

  /** Any calls made on a new deque have the effect they have on the sequence; the class cannot be closed from outside. */
  method CallManager(ops: seq<Op>) returns (q: WorkQueueManager)
    requires forall i :: 0 <= i < |ops| ==> !ops[i].SetClosed?
    ensures fresh(q) && q.State() == ManagerRun(ops)
  {
    hide *;
    q := new WorkQueueManager();
    var i := 0;
    assert ops[..0] == [];
    NoManagerCalls();
    while i < |ops|
      invariant 0 <= i <= |ops| && fresh(q)
      invariant q.State() == ManagerRun(ops[..i])
    {
      NextManagerCall(ops, i);
      match ops[i] {
        case SubmitOp(item) => q.Enqueue(item);
        case ProcessOp => var _ := q.ProcessWorkQueue();
        case ClearOp => q.ClearWorkQueue();
      }
      i := i + 1;
    }
    assert ops[..i] == ops;
  }

  lemma NoManagerCalls()
    ensures ManagerRun([]) == Fifo([], false, [], [], [], [])
  {
  }

  lemma NextManagerCall(ops: seq<Op>, i: nat)
    requires i < |ops|
    ensures var s, r := ManagerRun(ops[..i]), ManagerRun(ops[..i + 1]);
      match ops[i]
      case SubmitOp(item) => r == Submit(s, item)
      case ProcessOp => r == Process(s).(closed := StartsLoad(s.items))
      case ClearOp => r == Clear(s).(closed := false)
      case SetClosed(b) => r == s.(closed := b)
  {
    assert ops[..i + 1][..i] == ops[..i];
  }

  /** On the deque, too, what is invoked leaves, and with different items nothing is invoked twice. */
  lemma ManagerInvokesOnce(ops: seq<Op>)
    ensures multiset(ManagerRun(ops).left) == multiset(ManagerRun(ops).invoked) + multiset(Cleared(Expanded(ops)))
    ensures NoDuplicates(Submitted(ops)) ==> NoDuplicates(ManagerRun(ops).invoked)
  {
    ManagerIsQueue(ops);
    InvokedItemsLeave(Expanded(ops));
    if NoDuplicates(Submitted(ops)) { NothingInvokedTwice(Expanded(ops)); }
  }

  // ---------------------------------------------------------------- when items are turned away

  /** The last call of the kind that decides is at i. */
  ghost predicate LastSet(ops: seq<Op>, i: nat) {
    i < |ops| && ops[i].SetClosed? && forall k :: i < k < |ops| ==> !ops[k].SetClosed?
  }

  /** The array queue turns items away exactly if the last freezing or unfreezing froze it. */
  lemma {:induction false} FrozenByLastSet(ops: seq<Op>)
    ensures Run(ops).closed <==> exists i: nat :: LastSet(ops, i) && ops[i].b
    decreases |ops|
  {
    if ops != [] {
      var init, last := ops[..|ops| - 1], ops[|ops| - 1];
      FrozenByLastSet(init);
      if last.SetClosed? {
        assert LastSet(ops, |ops| - 1);
      } else {
        assert Run(ops).closed == Run(init).closed;
        forall i: nat ensures LastSet(ops, i) <==> LastSet(init, i) {
        }
      }
    }
  }

  /** A load was started by the run at i, and nothing since then has ended it: no run and no clear. */
  ghost predicate InFlight(ops: seq<Op>, i: nat) {
    && i < |ops| && ops[i].ProcessOp? && StartsLoad(ManagerRun(ops[..i]).items)
    && forall k :: i < k < |ops| ==> ops[k].SubmitOp?
  }

  /** The deque turns items away exactly while a load is in flight. */
  lemma {:induction false} ClosedInFlight(ops: seq<Op>)
    requires forall i :: 0 <= i < |ops| ==> !ops[i].SetClosed?
    ensures ManagerRun(ops).closed <==> exists i: nat :: InFlight(ops, i)
    decreases |ops|
  {
    if ops != [] {
      var init, last := ops[..|ops| - 1], ops[|ops| - 1];
      ClosedInFlight(init);
      if last.SubmitOp? {
        assert ManagerRun(ops).closed == ManagerRun(init).closed;
        forall i: nat ensures InFlight(ops, i) <==> InFlight(init, i) {
          if i < |init| { assert ops[..i] == init[..i]; }
        }
      } else {
        forall i: nat | InFlight(ops, i) ensures i == |init| {
        }
        if last.ProcessOp? && StartsLoad(ManagerRun(init).items) {
          assert ops[..|init|] == init;
          assert InFlight(ops, |init|);
        }
      }
    }
  }

  /** The room of the array: without a clear exactly 1024 items can be accepted. */
  lemma RoomFor1024(ops: seq<Op>)
    requires forall i :: 0 <= i < |ops| ==> ops[i].SubmitOp?
    ensures Fits(ops) <==> |ops| <= 1024
  {
    forall i | 0 <= i <= |ops| ensures SinceClear(ops[..i]) == i && !Run(ops[..i]).closed {
      AllAccepted(ops[..i]);
    }
    assert |ops| > 1024 ==> ops[1024].SubmitOp? && SinceClear(ops[..1024]) == 1024;
  }

  lemma {:induction false} AllAccepted(ops: seq<Op>)
    requires forall i :: 0 <= i < |ops| ==> ops[i].SubmitOp?
    ensures SinceClear(ops) == |ops| && !Run(ops).closed
    decreases |ops|
  {
    if ops != [] { AllAccepted(ops[..|ops| - 1]); }
  }
}

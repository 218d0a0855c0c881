/**
 Merging the metadata nodes of several modules into one table: root nodes are entered as they are read, nodes with a
 parent wait in a worklist that is swept until it is empty.
 */
module MetaDataMerge {
  import opened Prelude

  /** A metadata line of a module, or an entry of the combined table. */
  datatype MetaData = MetaData(index: nat, name: string, parent: Option<nat>)

  /** The combined table: a hash from names, in the order of insertion. */
  type Table = seq<MetaData>

  function PositionFrom(table: Table, name: string, i: nat): (p: nat)
    requires i <= |table|
    ensures i <= p <= |table|
    ensures p < |table| ==> table[p].name == name
    ensures forall j :: i <= j < p ==> table[j].name != name
    decreases |table| - i
  {
    if i == |table| || table[i].name == name then i else PositionFrom(table, name, i + 1)
  }

  function Position(table: Table, name: string): (p: nat)
    ensures p <= |table|
    ensures p < |table| ==> table[p].name == name
    ensures forall j :: 0 <= j < p ==> table[j].name != name
  {
    PositionFrom(table, name, 0)
  }

  predicate Known(table: Table, name: string) {
    Position(table, name) < |table|
  }

  function Entry(table: Table, name: string): MetaData
    requires Known(table, name)
  {
    table[Position(table, name)]
  }

  /** The nodes still to be resolved, the renumbering of the module so far, and the combined table. */
  datatype Resolution = Resolution(pending: seq<MetaData>, renumber: map<nat, nat>, table: Table)

  // ---------------------------------------------------------------- reading

  function ReadLine(s: Resolution, node: MetaData): Resolution {
    if node.parent.Some? then s.(pending := s.pending + [node])
    else
      var table := if Known(s.table, node.name) then s.table else s.table + [MetaData(|s.table|, node.name, None)];
      assert !Known(s.table, node.name) ==> table[|s.table|].name == node.name;
      s.(renumber := s.renumber[node.index := Entry(table, node.name).index], table := table)
  }

  /** The state after the lines of a module have been read. */
  function ReadLines(nodes: seq<MetaData>, table: Table): Resolution {
    if nodes == [] then Resolution([], map[], table)
    else ReadLine(ReadLines(nodes[..|nodes| - 1], table), nodes[|nodes| - 1])
  }

  /** The nodes with a parent. */
  function Children(nodes: seq<MetaData>): seq<MetaData> {
    if nodes == [] then [] else (if nodes[0].parent.Some? then [nodes[0]] else []) + Children(nodes[1..])
  }

  lemma {:induction false} ChildrenOfMore(nodes: seq<MetaData>, a: MetaData)
    ensures Children(nodes + [a]) == Children(nodes) + if a.parent.Some? then [a] else []
    decreases |nodes|
  {
    if nodes == [] {
      assert [a][1..] == [] && nodes + [a] == [a];
    } else {
      ChildrenOfMore(nodes[1..], a);
      assert (nodes + [a])[1..] == nodes[1..] + [a];
    }
  }

  /** The worklist holds the nodes with a parent, in the order of the lines. */
  lemma {:induction false} PendingInOrder(nodes: seq<MetaData>, table: Table)
    ensures ReadLines(nodes, table).pending == Children(nodes)
    decreases |nodes|
  {
    if nodes != [] {
      var init, a := nodes[..|nodes| - 1], nodes[|nodes| - 1];
      assert nodes == init + [a];
      PendingInOrder(init, table);
      ChildrenOfMore(init, a);
    }
  }

  // ---------------------------------------------------------------- the worklist

  function SwapRemove(pending: seq<MetaData>, i: nat): (r: seq<MetaData>)
    requires i < |pending|
    ensures |r| == |pending| - 1
  {
    pending[i := pending[|pending| - 1]][..|pending| - 1]
  }

  /** A node that the sweep resolves when it meets it. */
  predicate Direct(q: MetaData, s: Resolution) {
    Known(s.table, q.name) || (q.parent.Some? && q.parent.value in s.renumber)
  }

  /** The node at position i is resolved and removed. */
  function Resolve(s: Resolution, i: nat): (r: Resolution)
    requires i < |s.pending| && Direct(s.pending[i], s)
    ensures |r.pending| == |s.pending| - 1
  {
    var q := s.pending[i];
    if Known(s.table, q.name) then
      Resolution(SwapRemove(s.pending, i), s.renumber[q.index := Entry(s.table, q.name).index], s.table)
    else
      var renumber := s.renumber[q.index := |s.table|];
      Resolution(SwapRemove(s.pending, i), renumber,
                 s.table + [MetaData(|s.table|, q.name, Some(renumber[q.parent.value]))])
  }

  /** The inner loop from position i on. */
  function Sweep(s: Resolution, i: nat): (r: Resolution)
    requires i <= |s.pending|
    ensures |r.pending| <= |s.pending|
    decreases |s.pending| - i
  {
    if i == |s.pending| then s
    else if Direct(s.pending[i], s) then Sweep(Resolve(s, i), i)
    else Sweep(s, i + 1)
  }

  function Sweeps(s: Resolution, n: nat): (r: Resolution)
    ensures |r.pending| <= |s.pending|
  {
    if n == 0 then s else Sweep(Sweeps(s, n - 1), 0)
  }

  /** The nodes the sweep looks at, in order. */
  function Visited(s: Resolution, i: nat): seq<MetaData>
    requires i <= |s.pending|
    decreases |s.pending| - i
  {
    if i == |s.pending| then []
    else if Direct(s.pending[i], s) then [s.pending[i]] + Visited(Resolve(s, i), i)
    else [s.pending[i]] + Visited(s, i + 1)
  }

  /** The nodes the sweep resolves, in order. */
  function Resolved(s: Resolution, i: nat): seq<MetaData>
    requires i <= |s.pending|
    decreases |s.pending| - i
  {
    if i == |s.pending| then []
    else if Direct(s.pending[i], s) then [s.pending[i]] + Resolved(Resolve(s, i), i)
    else Resolved(s, i + 1)
  }

  /** The last node takes the place of the removed one, and all others stay where they are. */
  lemma SwapRemovePlaces(pending: seq<MetaData>, i: nat)
    requires i < |pending|
    ensures var r, n := SwapRemove(pending, i), |pending| - 1;
      |r| == n && forall k :: 0 <= k < n ==> r[k] == if k == i then pending[n] else pending[k]
  {
  }

  lemma SwapRemoveTakes(pending: seq<MetaData>, i: nat, k: nat)
    requires k <= i < |pending|
    ensures multiset(pending[k..]) == multiset(SwapRemove(pending, i)[k..]) + multiset{pending[i]}
  {
    var n := |pending| - 1;
    var r := SwapRemove(pending, i);
    assert pending[k..] == pending[k..n] + [pending[n]];
    if i == n {
      assert r[k..] == pending[k..n];
    } else {
      var a, b := pending[k..i], pending[i + 1..n];
      assert pending[k..n] == a + [pending[i]] + b;
      assert r[k..] == a + [pending[n]] + b;
    }
  }

  lemma ResolveTakes(s: Resolution, i: nat)
    requires i < |s.pending| && Direct(s.pending[i], s)
    ensures multiset(s.pending[i..]) == multiset(Resolve(s, i).pending[i..]) + multiset{s.pending[i]}
    ensures multiset(s.pending) == multiset(Resolve(s, i).pending) + multiset{s.pending[i]}
  {
    SwapRemoveTakes(s.pending, i, i);
    SwapRemoveTakes(s.pending, i, 0);
    assert s.pending[0..] == s.pending && Resolve(s, i).pending[0..] == Resolve(s, i).pending;
  }

  lemma PutBack(pending: seq<MetaData>, i: nat)
    requires i < |pending|
    ensures multiset(pending[i..]) == multiset(pending[i + 1..]) + multiset{pending[i]}
  {
    assert pending[i..] == [pending[i]] + pending[i + 1..];
  }

  /** A sweep looks at every node present at its start exactly once. */
  lemma {:induction false} SweepVisitsAll(s: Resolution, i: nat)
    requires i <= |s.pending|
    ensures multiset(Visited(s, i)) == multiset(s.pending[i..])
    decreases |s.pending| - i
  {
    hide Direct, Resolve;
    if i < |s.pending| {
      var q := s.pending[i];
      if Direct(q, s) {
        SweepVisitsAll(Resolve(s, i), i);
        ResolveTakes(s, i);
      } else {
        SweepVisitsAll(s, i + 1);
        PutBack(s.pending, i);
      }
    }
  }

  /** The nodes a sweep resolves are exactly those it drops from the worklist. */
  lemma {:induction false} SweepConserves(s: Resolution, i: nat)
    requires i <= |s.pending|
    ensures multiset(Resolved(s, i)) + multiset(Sweep(s, i).pending) == multiset(s.pending)
    decreases |s.pending| - i
  {
    hide Direct, Resolve;
    if i < |s.pending| {
      if Direct(s.pending[i], s) {
        var t := Resolve(s, i);
        SweepConserves(t, i);
        ResolveTakes(s, i);
        assert Resolved(s, i) == [s.pending[i]] + Resolved(t, i);
      } else {
        SweepConserves(s, i + 1);
      }
    }
  }

  /** Up to the first node it can resolve, a sweep looks at the nodes in order and changes nothing. */
  lemma {:induction false} SweepGoesForward(s: Resolution, i: nat, j: nat)
    requires i <= j <= |s.pending| && forall k :: i <= k < j ==> !Direct(s.pending[k], s)
    ensures Visited(s, i) == s.pending[i..j] + Visited(s, j) && Sweep(s, i) == Sweep(s, j)
    decreases j - i
  {
    if i < j {
      SweepGoesForward(s, i + 1, j);
      assert s.pending[i..j] == [s.pending[i]] + s.pending[i + 1..j];
    } else {
      assert s.pending[i..j] == [];
    }
  }

  /** A sweep shortens the worklist exactly when one of its nodes can be resolved at once. */
  lemma {:induction false} SweepProgress(s: Resolution, i: nat)
    requires i <= |s.pending|
    ensures |Sweep(s, i).pending| < |s.pending| <==> exists k :: i <= k < |s.pending| && Direct(s.pending[k], s)
    decreases |s.pending| - i
  {
    if i < |s.pending| && !Direct(s.pending[i], s) {
      SweepProgress(s, i + 1);
    }
  }

  // ---------------------------------------------------------------- when the loop ends

  ghost predicate Unblocks(p: MetaData, q: MetaData) {
    q.parent == Some(p.index) || p.name == q.name
  }

  /** q can be resolved after at most n other pending nodes: its name is known or its parent is mapped, or a pending
      node that is its parent or bears its name can be resolved first. */
  ghost predicate Grounded(n: nat, q: MetaData, s: Resolution) {
    Direct(q, s) || (n > 0 && exists p :: p in s.pending && Unblocks(p, q) && Grounded(n - 1, p, s))
  }

  ghost predicate Resolvable(s: Resolution) {
    forall q :: q in s.pending ==> exists n: nat :: Grounded(n, q, s)
  }

  lemma KnownAfter(s: Resolution, i: nat, name: string)
    requires i < |s.pending| && Direct(s.pending[i], s)
    ensures Known(Resolve(s, i).table, name) <==> Known(s.table, name) || name == s.pending[i].name
  {
    var t := Resolve(s, i).table;
    if Known(s.table, name) {
      assert t[Position(s.table, name)].name == name;
    }
    if name == s.pending[i].name && !Known(s.table, name) {
      assert t[|s.table|].name == name;
    }
  }

  lemma StaysPending(s: Resolution, i: nat, q: MetaData)
    requires i < |s.pending|
    ensures q in SwapRemove(s.pending, i) ==> q in s.pending
    ensures q in s.pending ==> q == s.pending[i] || q in SwapRemove(s.pending, i)
  {
    SwapRemoveTakes(s.pending, i, 0);
    assert s.pending[0..] == s.pending && SwapRemove(s.pending, i)[0..] == SwapRemove(s.pending, i);
    assert q in s.pending <==> q in multiset(s.pending);
    assert q in SwapRemove(s.pending, i) <==> q in multiset(SwapRemove(s.pending, i));
  }

  lemma {:induction false} GroundedAfter(n: nat, q: MetaData, s: Resolution, i: nat)
    requires i < |s.pending| && Direct(s.pending[i], s) && Grounded(n, q, s)
    ensures Grounded(n, q, Resolve(s, i))
    decreases n
  {
    KnownAfter(s, i, q.name);
    if !Direct(q, s) {
      var p :| p in s.pending && Unblocks(p, q) && Grounded(n - 1, p, s);
      GroundedAfter(n - 1, p, s, i);
      StaysPending(s, i, p);
    }
  }

  lemma {:induction false} GroundedBefore(n: nat, q: MetaData, s: Resolution, i: nat)
    requires i < |s.pending| && Direct(s.pending[i], s) && Grounded(n, q, Resolve(s, i))
    ensures Grounded(n + 1, q, s)
    decreases n
  {
    var s' := Resolve(s, i);
    KnownAfter(s, i, q.name);
    if Direct(q, s') {
      if !Direct(q, s) {
        assert Unblocks(s.pending[i], q) && Grounded(n, s.pending[i], s);
      }
    } else {
      var p :| p in s'.pending && Unblocks(p, q) && Grounded(n - 1, p, s');
      GroundedBefore(n - 1, p, s, i);
      StaysPending(s, i, p);
    }
  }

  lemma ResolvableAfter(s: Resolution, i: nat)
    requires i < |s.pending| && Direct(s.pending[i], s)
    ensures Resolvable(Resolve(s, i)) <==> Resolvable(s)
  {
    var s' := Resolve(s, i);
    if Resolvable(s) {
      forall q | q in s'.pending ensures exists n: nat :: Grounded(n, q, s') {
        StaysPending(s, i, q);
        var n: nat :| Grounded(n, q, s);
        GroundedAfter(n, q, s, i);
      }
    }
    if Resolvable(s') {
      forall q | q in s.pending ensures exists n: nat :: Grounded(n, q, s) {
        StaysPending(s, i, q);
        if q == s.pending[i] {
          assert Grounded(0, q, s);
        } else {
          var n: nat :| Grounded(n, q, s');
          GroundedBefore(n, q, s, i);
        }
      }
    }
  }

  lemma {:induction false} SweepKeepsResolvable(s: Resolution, i: nat)
    requires i <= |s.pending|
    ensures Resolvable(Sweep(s, i)) <==> Resolvable(s)
    decreases |s.pending| - i
  {
    if i < |s.pending| {
      if Direct(s.pending[i], s) {
        ResolvableAfter(s, i);
        SweepKeepsResolvable(Resolve(s, i), i);
      } else {
        SweepKeepsResolvable(s, i + 1);
      }
    }
  }

  lemma {:induction false} GroundedHasDirect(n: nat, q: MetaData, s: Resolution)
    requires q in s.pending && Grounded(n, q, s)
    ensures exists k :: 0 <= k < |s.pending| && Direct(s.pending[k], s)
    decreases n
  {
    if Direct(q, s) {
      var k :| 0 <= k < |s.pending| && s.pending[k] == q;
      assert Direct(s.pending[k], s);
    } else {
      var p :| p in s.pending && Unblocks(p, q) && Grounded(n - 1, p, s);
      GroundedHasDirect(n - 1, p, s);
    }
  }

  /** If every pending node is grounded, each sweep removes at least one node. */
  lemma ResolvableProgress(s: Resolution)
    requires Resolvable(s) && s.pending != []
    ensures |Sweep(s, 0).pending| < |s.pending|
  {
    var q := s.pending[0];
    assert q in s.pending;
    var n: nat :| Grounded(n, q, s);
    GroundedHasDirect(n, q, s);
    SweepProgress(s, 0);
  }

  lemma {:induction false} SweepsKeepResolvable(s: Resolution, n: nat)
    ensures Resolvable(Sweeps(s, n)) <==> Resolvable(s)
  {
    if n > 0 {
      SweepsKeepResolvable(s, n - 1);
      SweepKeepsResolvable(Sweeps(s, n - 1), 0);
    }
  }

  lemma {:induction false} SweepsShrink(s: Resolution, n: nat)
    requires Resolvable(s)
    ensures Sweeps(s, n).pending == [] || |Sweeps(s, n).pending| + n <= |s.pending|
  {
    if n > 0 {
      SweepsShrink(s, n - 1);
      var t := Sweeps(s, n - 1);
      if t.pending != [] {
        SweepsKeepResolvable(s, n - 1);
        ResolvableProgress(t);
      }
    }
  }

  /** The outer loop ends exactly when every pending node is grounded, and then after at most as many sweeps as there
      are pending nodes. */
  lemma EndsIffResolvable(s: Resolution)
    ensures (exists n: nat :: Sweeps(s, n).pending == []) <==> Resolvable(s)
    ensures Resolvable(s) ==> Sweeps(s, |s.pending|).pending == []
  {
    if Resolvable(s) {
      SweepsShrink(s, |s.pending|);
    }
    forall n: nat | Sweeps(s, n).pending == [] ensures Resolvable(s) {
      SweepsKeepResolvable(s, n);
    }
  }

  /** The outer loop. */
  ghost function ResolveAll(s: Resolution): (r: Resolution)
    requires Resolvable(s)
    ensures r.pending == []
    decreases |s.pending|
  {
    if s.pending == [] then s
    else
      ResolvableProgress(s);
      SweepKeepsResolvable(s, 0);
      ResolveAll(Sweep(s, 0))
  }

  /** All nodes the outer loop resolves, in order. */
  ghost function History(s: Resolution): seq<MetaData>
    requires Resolvable(s)
    decreases |s.pending|
  {
    if s.pending == [] then []
    else
      ResolvableProgress(s);
      SweepKeepsResolvable(s, 0);
      Resolved(s, 0) + History(Sweep(s, 0))
  }

  /** Every pending node is resolved exactly once. */
  lemma {:induction false} EachResolvedOnce(s: Resolution)
    requires Resolvable(s)
    ensures multiset(History(s)) == multiset(s.pending)
    decreases |s.pending|
  {
    if s.pending != [] {
      ResolvableProgress(s);
      SweepKeepsResolvable(s, 0);
      EachResolvedOnce(Sweep(s, 0));
      SweepConserves(s, 0);
    }
  }

  /** Once the worklist is empty further sweeps change nothing. */
  lemma {:induction false} SweepsStay(s: Resolution, n: nat, k: nat)
    requires Sweeps(s, n).pending == [] && n <= k
    ensures Sweeps(s, k) == Sweeps(s, n)
    decreases k
  {
    if n < k { SweepsStay(s, n, k - 1); }
  }

  lemma {:induction false} SweepsFromFront(s: Resolution, n: nat)
    ensures Sweeps(s, n + 1) == Sweeps(Sweep(s, 0), n)
    decreases n
  {
    if n > 0 {
      SweepsFromFront(s, n - 1);
    } else {
      assert Sweeps(s, 0) == s;
    }
  }

  /** Sweeps that empty the worklist are the whole loop. */
  lemma {:induction false} SweepsAreResolveAll(s: Resolution, n: nat)
    requires Sweeps(s, n).pending == []
    ensures Resolvable(s) && Sweeps(s, n) == ResolveAll(s)
    decreases n
  {
    SweepsKeepResolvable(s, n);
    if s.pending == [] {
      SweepsStay(s, 0, n);
    } else {
      SweepsFromFront(s, n - 1);
      SweepsAreResolveAll(Sweep(s, 0), n - 1);
    }
  }

  /** As many sweeps as there are pending nodes tell whether the loop ends. */
  lemma EnoughSweeps(s: Resolution, n: nat)
    requires n >= |s.pending|
    ensures Sweeps(s, n).pending == [] <==> Resolvable(s)
  {
    if Resolvable(s) {
      SweepsShrink(s, n);
    } else {
      SweepsKeepResolvable(s, n);
    }
  }
}

/**
 What the combined metadata table means: every module's nodes keep their names and, when a name has one parent
 throughout, their whole chain of ancestors.
 */
module MetaDataMeaning {
  import opened Prelude
  import opened MetaDataMerge

  type Nodes = seq<MetaData>

  // ---------------------------------------------------------------- the table

  /** Entries are numbered densely, names occur once, and no parent comes after its child. */
  ghost predicate TableInv(table: Table) {
    && (forall i :: 0 <= i < |table| ==> table[i].index == i)
    && (forall i, j :: 0 <= i < j < |table| ==> table[i].name != table[j].name)
    && (forall i :: 0 <= i < |table| && table[i].parent.Some? ==> table[i].parent.value <= i)
  }

  /** No entry is its own parent: parents come before their children, so that there is no cycle. */
  ghost predicate ParentsFirst(table: Table) {
    forall i :: 0 <= i < |table| && table[i].parent.Some? ==> table[i].parent.value < i
  }

  lemma PositionIs(table: Table, i: nat)
    requires TableInv(table) && i < |table|
    ensures Position(table, table[i].name) == i
  {
  }

  function ParentName(table: Table, i: nat): Option<string>
    requires i < |table|
  {
    match table[i].parent
    case None => None
    case Some(p) => if p < |table| then Some(table[p].name) else None
  }

  /** The names of an entry and its ancestors. */
  ghost function Chain(table: Table, i: nat): (c: seq<string>)
    requires TableInv(table) && ParentsFirst(table) && i < |table|
    ensures c != [] && c[0] == table[i].name
  {
    match table[i].parent
    case None => [table[i].name]
    case Some(p) => [table[i].name] + Chain(table, p)
  }

  // ---------------------------------------------------------------- modules

  ghost predicate UniqueIndices(nodes: Nodes) {
    forall a, b :: a in nodes && b in nodes && a.index == b.index ==> a == b
  }

  ghost predicate Defines(nodes: Nodes, index: nat) {
    exists a :: a in nodes && a.index == index
  }

  /** A metadata index is defined once, and every parent is defined. */
  ghost predicate WellFormed(nodes: Nodes) {
    && UniqueIndices(nodes)
    && forall a :: a in nodes && a.parent.Some? ==> Defines(nodes, a.parent.value)
  }

  ghost predicate Named(nodes: Nodes, index: nat, name: string) {
    exists a :: a in nodes && a.index == index && a.name == name
  }

  /** The parent of node a of the module is called parentName; None if it has no parent. */
  ghost predicate HasParentName(nodes: Nodes, a: MetaData, parentName: Option<string>) {
    match a.parent
    case None => parentName.None?
    case Some(p) => parentName.Some? && Named(nodes, p, parentName.value)
  }

  /** c holds the names of a node with that index and its ancestors, up to a node without parent. */
  ghost predicate IsChain(nodes: Nodes, index: nat, c: seq<string>)
    decreases |c|
  {
    && c != []
    && exists a ::
         && a in nodes && a.index == index && a.name == c[0]
         && if a.parent.None? then |c| == 1 else IsChain(nodes, a.parent.value, c[1..])
  }

  /** Nodes of the same name have parents of the same name, in and across the modules. */
  ghost predicate Consistent(ms: seq<Nodes>) {
    forall i, j, a, b, p, q ::
      (0 <= i < |ms| && 0 <= j < |ms| && a in ms[i] && b in ms[j] && a.name == b.name &&
       HasParentName(ms[i], a, p) && HasParentName(ms[j], b, q)) ==> p == q
  }

  // ---------------------------------------------------------------- one module

  /** A module has a node of that name with a parent of that name. */
  ghost predicate Occurs(ms: seq<Nodes>, name: string, parentName: Option<string>) {
    exists i, a :: 0 <= i < |ms| && a in ms[i] && a.name == name && HasParentName(ms[i], a, parentName)
  }

  ghost predicate FromModules(ms: seq<Nodes>, table: Table) {
    forall i :: 0 <= i < |table| ==> Occurs(ms, table[i].name, ParentName(table, i))
  }

  ghost predicate AllNodesUnique(ms: seq<Nodes>) {
    forall m :: m in ms ==> UniqueIndices(m)
  }

  /** What holds of the table throughout: it comes from the modules, and has no cycle if they define no index twice. */
  ghost predicate TableOf(ms: seq<Nodes>, table: Table) {
    TableInv(table) && FromModules(ms, table) && (AllNodesUnique(ms) ==> ParentsFirst(table))
  }

  /** Numbers are mapped to entries with the name of a node of that number. */
  ghost predicate KeepsNames(nodes: Nodes, renumber: map<nat, nat>, table: Table) {
    forall k :: k in renumber ==> renumber[k] < |table| && Named(nodes, k, table[renumber[k]].name)
  }

  /** What holds throughout the processing of the module `nodes`, the last of ms, after its first n lines. */
  ghost predicate ResolutionInv(ms: seq<Nodes>, nodes: Nodes, n: nat, s: Resolution)
    requires n <= |nodes|
  {
    && TableOf(ms, s.table)
    && KeepsNames(nodes, s.renumber, s.table)
    && (forall q :: q in s.pending ==> q in nodes && q.parent.Some?)
    && (forall i :: 0 <= i < n ==> nodes[i] in s.pending || nodes[i].index in s.renumber)
  }

  lemma TableGrows(ms: seq<Nodes>, table: Table, e: MetaData)
    requires TableOf(ms, table)
    requires e.index == |table| && !Known(table, e.name)
    requires e.parent.Some? ==> e.parent.value <= |table| && (AllNodesUnique(ms) ==> e.parent.value < |table|)
    requires Occurs(ms, e.name, ParentName(table + [e], |table|))
    ensures TableOf(ms, table + [e])
    ensures Known(table + [e], e.name) && Entry(table + [e], e.name) == e
  {
    hide Occurs, AllNodesUnique, Position, ParentName;
    NewName(table, e);
    TableInvGrows(table, e);
    FromModulesGrow(ms, table, e);
    assert (table + [e])[|table|] == e;
  }

  lemma TableInvGrows(table: Table, e: MetaData)
    requires TableInv(table) && e.index == |table| && (e.parent.Some? ==> e.parent.value <= |table|)
    requires forall j :: 0 <= j < |table| ==> table[j].name != e.name
    ensures TableInv(table + [e])
    ensures Known(table + [e], e.name) && Entry(table + [e], e.name) == e
    ensures ParentsFirst(table) && (e.parent.Some? ==> e.parent.value < |table|) ==> ParentsFirst(table + [e])
  {
    assert (table + [e])[|table|] == e;
    PositionIs(table + [e], |table|);
  }

  lemma FromModulesGrow(ms: seq<Nodes>, table: Table, e: MetaData)
    requires TableInv(table) && FromModules(ms, table) && Occurs(ms, e.name, ParentName(table + [e], |table|))
    ensures FromModules(ms, table + [e])
  {
    hide Occurs;
    var t := table + [e];
    forall i | 0 <= i < |t| ensures Occurs(ms, t[i].name, ParentName(t, i)) {
      if i < |table| { assert t[i] == table[i] && ParentName(t, i) == ParentName(table, i); }
    }
  }

  lemma NewName(table: Table, e: MetaData)
    requires !Known(table, e.name)
    ensures forall j :: 0 <= j < |table| ==> table[j].name != e.name
  {
  }

  lemma NamesStay(nodes: Nodes, renumber: map<nat, nat>, table: Table, table': Table)
    requires KeepsNames(nodes, renumber, table) && table <= table'
    ensures KeepsNames(nodes, renumber, table')
  {
  }

  lemma NamesGrow(nodes: Nodes, renumber: map<nat, nat>, table: Table, a: MetaData, v: nat)
    requires KeepsNames(nodes, renumber, table) && a in nodes && v < |table| && table[v].name == a.name
    ensures KeepsNames(nodes, renumber[a.index := v], table)
  {
    assert Named(nodes, a.index, a.name);
  }

  lemma ReadLineKeeps(ms: seq<Nodes>, nodes: Nodes, n: nat, s: Resolution)
    requires n < |nodes| && ms != [] && nodes == ms[|ms| - 1] && ResolutionInv(ms, nodes, n, s)
    ensures ResolutionInv(ms, nodes, n + 1, ReadLine(s, nodes[n])) && s.table <= ReadLine(s, nodes[n]).table
  {
    var a := nodes[n];
    if a.parent.None? {
      var e := MetaData(|s.table|, a.name, None);
      if Known(s.table, a.name) {
        NamesGrow(nodes, s.renumber, s.table, a, Position(s.table, a.name));
      } else {
        assert HasParentName(nodes, a, None) && ParentName(s.table + [e], |s.table|) == None;
        TableGrows(ms, s.table, e);
        NamesStay(nodes, s.renumber, s.table, s.table + [e]);
        NamesGrow(nodes, s.renumber, s.table + [e], a, |s.table|);
      }
    }
  }

  /** A node that is its own parent is never entered as a child: if its number is mapped, its name is known. */
  lemma NotItsOwnParent(nodes: Nodes, s: Resolution, a: MetaData)
    requires UniqueIndices(nodes) && KeepsNames(nodes, s.renumber, s.table) && a in nodes && a.parent.Some?
    requires a.parent.value in s.renumber && !Known(s.table, a.name)
    ensures a.parent.value != a.index
  {
    assert Named(nodes, a.parent.value, s.table[s.renumber[a.parent.value]].name);
  }

  lemma NewChild(nodes: Nodes, s: Resolution, a: MetaData, e: MetaData)
    requires KeepsNames(nodes, s.renumber, s.table) && a in nodes && a.parent.Some? && a.parent.value in s.renumber
    requires e == MetaData(|s.table|, a.name, Some(if a.parent.value == a.index then |s.table| else s.renumber[a.parent.value]))
    ensures HasParentName(nodes, a, ParentName(s.table + [e], |s.table|))
  {
    assert Named(nodes, a.index, a.name);
  }

  lemma ResolveKeeps(ms: seq<Nodes>, nodes: Nodes, s: Resolution, i: nat)
    requires ms != [] && nodes == ms[|ms| - 1] && ResolutionInv(ms, nodes, |nodes|, s)
    requires i < |s.pending| && Direct(s.pending[i], s)
    ensures ResolutionInv(ms, nodes, |nodes|, Resolve(s, i)) && s.table <= Resolve(s, i).table
  {
    var a := s.pending[i];
    assert a in nodes;
    var t := Resolve(s, i);
    if Known(s.table, a.name) {
      NamesGrow(nodes, s.renumber, s.table, a, Position(s.table, a.name));
    } else {
      var p := a.parent.value;
      var e := MetaData(|s.table|, a.name, Some(if p == a.index then |s.table| else s.renumber[p]));
      NewChild(nodes, s, a, e);
      if AllNodesUnique(ms) {
        assert nodes in ms;
        NotItsOwnParent(nodes, s, a);
      }
      TableGrows(ms, s.table, e);
      NamesStay(nodes, s.renumber, s.table, s.table + [e]);
      NamesGrow(nodes, s.renumber, s.table + [e], a, |s.table|);
    }
    forall q ensures q in t.pending ==> q in nodes && q.parent.Some? { StaysPending(s, i, q); }
    forall k | 0 <= k < |nodes| ensures nodes[k] in t.pending || nodes[k].index in t.renumber {
      StaysPending(s, i, nodes[k]);
    }
  }

  lemma {:induction false} ReadLinesKeeps(ms: seq<Nodes>, nodes: Nodes, n: nat, table: Table)
    requires n <= |nodes| && ms != [] && nodes == ms[|ms| - 1] && TableOf(ms, table)
    ensures ResolutionInv(ms, nodes, n, ReadLines(nodes[..n], table)) && table <= ReadLines(nodes[..n], table).table
    decreases n
  {
    if n > 0 {
      ReadLinesKeeps(ms, nodes, n - 1, table);
      assert nodes[..n][..n - 1] == nodes[..n - 1];
      ReadLineKeeps(ms, nodes, n - 1, ReadLines(nodes[..n - 1], table));
    }
  }

  lemma {:induction false} SweepKeeps(ms: seq<Nodes>, nodes: Nodes, s: Resolution, i: nat)
    requires ms != [] && nodes == ms[|ms| - 1] && ResolutionInv(ms, nodes, |nodes|, s) && i <= |s.pending|
    ensures ResolutionInv(ms, nodes, |nodes|, Sweep(s, i)) && s.table <= Sweep(s, i).table
    decreases |s.pending| - i
  {
    hide ResolutionInv, Resolve, Direct;
    if i < |s.pending| {
      if Direct(s.pending[i], s) {
        ResolveKeeps(ms, nodes, s, i);
        SweepKeeps(ms, nodes, Resolve(s, i), i);
      } else {
        SweepKeeps(ms, nodes, s, i + 1);
      }
    }
  }

  lemma {:induction false} ResolveAllKeeps(ms: seq<Nodes>, nodes: Nodes, s: Resolution)
    requires ms != [] && nodes == ms[|ms| - 1] && ResolutionInv(ms, nodes, |nodes|, s) && Resolvable(s)
    ensures ResolutionInv(ms, nodes, |nodes|, ResolveAll(s)) && s.table <= ResolveAll(s).table
    decreases |s.pending|
  {
    if s.pending != [] {
      ResolvableProgress(s);
      SweepKeepsResolvable(s, 0);
      SweepKeeps(ms, nodes, s, 0);
      ResolveAllKeeps(ms, nodes, Sweep(s, 0));
    }
  }

  // ---------------------------------------------------------------- all modules

  /** The combined table and the renumbering of each module. */
  datatype Merged = Merged(table: Table, renumber: seq<map<nat, nat>>)

  /** The result of merging the modules in order; None if the worklist of one of them is never emptied. */
  ghost function MergeAll(ms: seq<Nodes>): Option<Merged> {
    if ms == [] then Some(Merged([], []))
    else
      match MergeAll(ms[..|ms| - 1])
      case None => None
      case Some(m) =>
        var s := ReadLines(ms[|ms| - 1], m.table);
        if Resolvable(s) then Some(Merged(ResolveAll(s).table, m.renumber + [ResolveAll(s).renumber])) else None
  }

  /** Every node is mapped, and to an entry of the same name. */
  ghost predicate MapsNodes(nodes: Nodes, renumber: map<nat, nat>, table: Table) {
    forall a :: a in nodes ==>
      a.index in renumber && renumber[a.index] < |table| && table[renumber[a.index]].name == a.name
  }

  ghost predicate MergedInv(ms: seq<Nodes>, m: Merged) {
    && TableInv(m.table)
    && ParentsFirst(m.table)
    && FromModules(ms, m.table)
    && |m.renumber| == |ms|
    && forall j :: 0 <= j < |ms| ==> MapsNodes(ms[j], m.renumber[j], m.table)
  }

  lemma MoreModules(ms: seq<Nodes>, more: seq<Nodes>, table: Table)
    requires FromModules(ms, table) && ms <= more
    ensures FromModules(more, table)
  {
    forall i | 0 <= i < |table| ensures Occurs(more, table[i].name, ParentName(table, i)) {
      var j, a :| 0 <= j < |ms| && a in ms[j] && a.name == table[i].name && HasParentName(ms[j], a, ParentName(table, i));
      assert more[j] == ms[j];
    }
  }

  lemma TableOfMore(ms: seq<Nodes>, more: seq<Nodes>, table: Table)
    requires TableOf(ms, table) && ms <= more
    ensures TableOf(more, table)
  {
    hide FromModules, TableInv, ParentsFirst, UniqueIndices;
    MoreModules(ms, more, table);
    forall m | m in ms ensures m in more {
      var k :| 0 <= k < |ms| && ms[k] == m;
      assert more[k] == m;
    }
  }

  lemma MapsAll(ms: seq<Nodes>, nodes: Nodes, s: Resolution)
    requires ResolutionInv(ms, nodes, |nodes|, s) && s.pending == [] && UniqueIndices(nodes)
    ensures MapsNodes(nodes, s.renumber, s.table)
  {
    forall a | a in nodes
      ensures a.index in s.renumber && s.renumber[a.index] < |s.table| && s.table[s.renumber[a.index]].name == a.name
    {
      assert a.index in s.renumber;
      assert Named(nodes, a.index, s.table[s.renumber[a.index]].name);
    }
  }

  lemma ModuleKeeps(ms: seq<Nodes>, nodes: Nodes, table: Table)
    requires ms != [] && nodes == ms[|ms| - 1] && UniqueIndices(nodes)
    requires TableOf(ms, table) && Resolvable(ReadLines(nodes, table))
    ensures var r := ResolveAll(ReadLines(nodes, table));
      TableOf(ms, r.table) && table <= r.table && MapsNodes(nodes, r.renumber, r.table)
  {
    assert nodes[..|nodes|] == nodes;
    ReadLinesKeeps(ms, nodes, |nodes|, table);
    var s := ReadLines(nodes, table);
    ResolveAllKeeps(ms, nodes, s);
    MapsAll(ms, nodes, ResolveAll(s));
  }

  lemma MapsStay(ms: seq<Nodes>, init: seq<Nodes>, m: Merged, r: Resolution)
    requires ms != [] && init == ms[..|ms| - 1] && MergedInv(init, m) && m.table <= r.table
    requires MapsNodes(ms[|ms| - 1], r.renumber, r.table)
    ensures forall j :: 0 <= j < |ms| ==> MapsNodes(ms[j], (m.renumber + [r.renumber])[j], r.table)
  {
    forall j | 0 <= j < |ms| ensures MapsNodes(ms[j], (m.renumber + [r.renumber])[j], r.table) {
      if j < |init| {
        assert MapsNodes(init[j], m.renumber[j], m.table) && ms[j] == init[j];
      }
    }
  }

  /** The combined table is dense, acyclic and free of duplicate names, all of its entries come from the modules, and
      every node of every module is sent to an entry of its name. */
  lemma {:induction false} MergeKeepsNames(ms: seq<Nodes>)
    requires MergeAll(ms).Some? && AllNodesUnique(ms)
    ensures MergedInv(ms, MergeAll(ms).value)
    decreases |ms|
  {
    hide TableInv, ParentsFirst, FromModules, MapsNodes, UniqueIndices, Resolvable, ReadLines;
    if ms != [] {
      var init, nodes := ms[..|ms| - 1], ms[|ms| - 1];
      MergeKeepsNames(init);
      var m := MergeAll(init).value;
      TableOfMore(init, ms, m.table);
      ModuleKeeps(ms, nodes, m.table);
      MapsStay(ms, init, m, ResolveAll(ReadLines(nodes, m.table)));
    } else {
      EmptyTable();
    }
  }

  lemma EmptyTable()
    ensures TableInv([]) && ParentsFirst([]) && FromModules([], [])
  {
  }

  // ---------------------------------------------------------------- the homomorphism

  /** Every module's renumbering sends a node to an entry with the same chain of ancestor names. */
  ghost predicate KeepsChains(ms: seq<Nodes>, m: Merged)
    requires MergedInv(ms, m)
  {
    forall j, a :: 0 <= j < |ms| && a in ms[j] ==> IsChain(ms[j], a.index, Chain(m.table, m.renumber[j][a.index]))
  }

  lemma HasSomeParentName(nodes: Nodes, a: MetaData) returns (p: Option<string>)
    requires WellFormed(nodes) && a in nodes
    ensures HasParentName(nodes, a, p)
  {
    if a.parent.None? {
      p := None;
    } else {
      var b :| b in nodes && b.index == a.parent.value;
      assert Named(nodes, b.index, b.name);
      p := Some(b.name);
    }
  }

  lemma EntryParentName(ms: seq<Nodes>, m: Merged, j: nat, a: MetaData, p: Option<string>)
    requires MergedInv(ms, m) && Consistent(ms) && j < |ms| && a in ms[j] && HasParentName(ms[j], a, p)
    ensures ParentName(m.table, m.renumber[j][a.index]) == p
  {
    assert MapsNodes(ms[j], m.renumber[j], m.table);
    var i := m.renumber[j][a.index];
    var r := ParentName(m.table, i);
    assert Occurs(ms, m.table[i].name, r);
    hide TableInv, FromModules, MapsNodes, HasParentName, ParentName;
    var k, b :| 0 <= k < |ms| && b in ms[k] && b.name == m.table[i].name && HasParentName(ms[k], b, r);
  }

  lemma ParentMatches(ms: seq<Nodes>, m: Merged, j: nat, a: MetaData)
    requires MergedInv(ms, m) && Consistent(ms) && j < |ms| && WellFormed(ms[j]) && a in ms[j]
    ensures var e := m.table[m.renumber[j][a.index]];
      match a.parent
      case None => e.parent.None?
      case Some(p) => exists b :: b in ms[j] && b.index == p && e.parent == Some(m.renumber[j][p])
  {
    var p := HasSomeParentName(ms[j], a);
    EntryParentName(ms, m, j, a, p);
    assert MapsNodes(ms[j], m.renumber[j], m.table);
    hide Consistent, FromModules;
    var i := m.renumber[j][a.index];
    if a.parent.Some? {
      var c :| c in ms[j] && c.index == a.parent.value && c.name == p.value;
      SameEntry(m.table, m.table[i].parent.value, m.renumber[j][c.index]);
    }
  }

  lemma SameEntry(table: Table, x: nat, y: nat)
    requires TableInv(table) && x < |table| && y < |table| && table[x].name == table[y].name
    ensures x == y
  {
  }

  lemma {:induction false} ConsistentChain(ms: seq<Nodes>, m: Merged, j: nat, a: MetaData)
    requires MergedInv(ms, m) && Consistent(ms) && j < |ms| && WellFormed(ms[j]) && a in ms[j]
    ensures IsChain(ms[j], a.index, Chain(m.table, m.renumber[j][a.index]))
    decreases m.renumber[j][a.index]
  {
    ParentMatches(ms, m, j, a);
    var i := m.renumber[j][a.index];
    var c := Chain(m.table, i);
    if a.parent.Some? {
      var b :| b in ms[j] && b.index == a.parent.value;
      ConsistentChain(ms, m, j, b);
      assert c[1..] == Chain(m.table, m.renumber[j][b.index]);
    }
  }

  lemma ChainShowsParent(nodes: Nodes, a: MetaData, p: Option<string>, c: seq<string>)
    requires UniqueIndices(nodes) && a in nodes && IsChain(nodes, a.index, c) && HasParentName(nodes, a, p)
    ensures p == if |c| == 1 then None else Some(c[1])
  {
    if a.parent.Some? {
      assert IsChain(nodes, a.parent.value, c[1..]);
      var b :| b in nodes && b.index == a.parent.value && b.name == c[1..][0];
      assert Named(nodes, b.index, p.value);
    }
  }

  lemma ChainsShowConsistent(ms: seq<Nodes>, m: Merged)
    requires MergedInv(ms, m) && (forall j :: 0 <= j < |ms| ==> WellFormed(ms[j])) && KeepsChains(ms, m)
    ensures Consistent(ms)
  {
    forall i, j, a, b, p, q |
      0 <= i < |ms| && 0 <= j < |ms| && a in ms[i] && b in ms[j] && a.name == b.name &&
      HasParentName(ms[i], a, p) && HasParentName(ms[j], b, q)
      ensures p == q
    {
      var x, y := m.renumber[i][a.index], m.renumber[j][b.index];
      SameEntry(m.table, x, y);
      ChainShowsParent(ms[i], a, p, Chain(m.table, x));
      ChainShowsParent(ms[j], b, q, Chain(m.table, x));
    }
  }

  lemma ChainsIffConsistent(ms: seq<Nodes>, m: Merged)
    requires MergedInv(ms, m) && forall j :: 0 <= j < |ms| ==> WellFormed(ms[j])
    ensures KeepsChains(ms, m) <==> Consistent(ms)
  {
    if Consistent(ms) {
      forall j, a | 0 <= j < |ms| && a in ms[j]
        ensures IsChain(ms[j], a.index, Chain(m.table, m.renumber[j][a.index]))
      {
        ConsistentChain(ms, m, j, a);
      }
    }
    if KeepsChains(ms, m) {
      ChainsShowConsistent(ms, m);
    }
  }

  /** The merge is a homomorphism exactly when a name always has the same parent name. */
  lemma HomomorphismIffConsistent(ms: seq<Nodes>)
    requires MergeAll(ms).Some? && forall j :: 0 <= j < |ms| ==> WellFormed(ms[j])
    ensures MergedInv(ms, MergeAll(ms).value)
    ensures KeepsChains(ms, MergeAll(ms).value) <==> Consistent(ms)
  {
    MergeKeepsNames(ms);
    ChainsIffConsistent(ms, MergeAll(ms).value);
  }

  // ---------------------------------------------------------------- completeness and termination

  /** The table has one entry for each name that occurs in a module, and no others. */
  lemma EntryForEachName(ms: seq<Nodes>, name: string)
    requires MergeAll(ms).Some? && AllNodesUnique(ms)
    ensures Known(MergeAll(ms).value.table, name) <==>
            exists j, a :: 0 <= j < |ms| && a in ms[j] && a.name == name
  {
    MergeKeepsNames(ms);
    var m := MergeAll(ms).value;
    if Known(m.table, name) {
      var i := Position(m.table, name);
      assert Occurs(ms, m.table[i].name, ParentName(m.table, i));
    }
    forall j, a | 0 <= j < |ms| && a in ms[j] && a.name == name ensures Known(m.table, name) {
      assert MapsNodes(ms[j], m.renumber[j], m.table);
      assert m.table[m.renumber[j][a.index]].name == name;
    }
  }

  /** Every parent chain of the module ends in a node without parent. */
  ghost predicate Rooted(nodes: Nodes) {
    UniqueIndices(nodes) && forall a :: a in nodes ==> exists c :: IsChain(nodes, a.index, c)
  }

  lemma {:induction false} RootedIsGrounded(ms: seq<Nodes>, nodes: Nodes, s: Resolution, q: MetaData, c: seq<string>)
    requires ResolutionInv(ms, nodes, |nodes|, s) && UniqueIndices(nodes)
    requires q in nodes && q in s.pending && IsChain(nodes, q.index, c)
    ensures Grounded(|c|, q, s)
    decreases |c|
  {
    if !Direct(q, s) {
      var p := q.parent.value;
      var rest := c[1..];
      assert IsChain(nodes, p, rest);
      var b :| b in nodes && b.index == p && b.name == rest[0];
      if p !in s.renumber {
        var k :| 0 <= k < |nodes| && nodes[k] == b;
        assert b in s.pending;
        RootedIsGrounded(ms, nodes, s, b, rest);
        assert Unblocks(b, q);
      }
    }
  }

  /** Whatever the table holds already, the worklist of a module whose chains end is emptied. */
  lemma RootedResolvable(ms: seq<Nodes>, nodes: Nodes, table: Table)
    requires ms != [] && nodes == ms[|ms| - 1] && Rooted(nodes) && TableOf(ms, table)
    ensures Resolvable(ReadLines(nodes, table))
  {
    assert nodes[..|nodes|] == nodes;
    ReadLinesKeeps(ms, nodes, |nodes|, table);
    var s := ReadLines(nodes, table);
    forall q | q in s.pending ensures exists n: nat :: Grounded(n, q, s) {
      var c :| IsChain(nodes, q.index, c);
      RootedIsGrounded(ms, nodes, s, q, c);
    }
  }

  lemma {:induction false} RootedModulesMerge(ms: seq<Nodes>)
    requires forall j :: 0 <= j < |ms| ==> Rooted(ms[j])
    ensures MergeAll(ms).Some?
    decreases |ms|
  {
    if ms != [] {
      var init := ms[..|ms| - 1];
      RootedModulesMerge(init);
      MergeKeepsNames(init);
      TableOfMore(init, ms, MergeAll(init).value.table);
      RootedResolvable(ms, ms[|ms| - 1], MergeAll(init).value.table);
    }
  }

  /** Two modules that can be merged although a name has a parent in the one and none in the other: the chain of the
      second module's node is lost. */
  lemma InconsistentModulesMerge() returns (ms: seq<Nodes>)
    ensures |ms| == 2 && MergeAll(ms).Some? && forall j :: 0 <= j < |ms| ==> WellFormed(ms[j])
    ensures MergedInv(ms, MergeAll(ms).value)
    ensures !Consistent(ms) && !KeepsChains(ms, MergeAll(ms).value)
  {
    var a, b, c := MetaData(0, "x", None), MetaData(0, "y", None), MetaData(1, "x", Some(0));
    var first, second := [a], [b, c];
    ms := [first, second];
    RootedExamples(first, second, a, b, c);
    assert Named(second, 0, "y") && HasParentName(second, c, Some("y"));
    assert a in first && c in second && HasParentName(first, a, None);
    hide *;
    RootedModulesMerge(ms);
    ShowsInconsistent(ms, a, None, c, Some("y"));
    HomomorphismIffConsistent(ms);
  }

  lemma ShowsInconsistent(ms: seq<Nodes>, a: MetaData, p: Option<string>, b: MetaData, q: Option<string>)
    requires |ms| == 2 && a in ms[0] && b in ms[1] && a.name == b.name && p != q
    requires HasParentName(ms[0], a, p) && HasParentName(ms[1], b, q)
    ensures !Consistent(ms)
  {
    hide HasParentName;
  }

  lemma RootIsChain(nodes: Nodes, a: MetaData)
    requires a in nodes && a.parent.None?
    ensures IsChain(nodes, a.index, [a.name])
  {
  }

  lemma ChildIsChain(nodes: Nodes, a: MetaData, p: nat, c: seq<string>)
    requires a in nodes && a.parent == Some(p) && IsChain(nodes, p, c)
    ensures IsChain(nodes, a.index, [a.name] + c)
  {
    assert ([a.name] + c)[1..] == c;
  }

  lemma RootedExamples(first: Nodes, second: Nodes, a: MetaData, b: MetaData, c: MetaData)
    requires a == MetaData(0, "x", None) && b == MetaData(0, "y", None) && c == MetaData(1, "x", Some(0))
    requires first == [a] && second == [b, c]
    ensures Rooted(first) && Rooted(second) && WellFormed(first) && WellFormed(second)
  {
    hide IsChain;
    RootIsChain(first, a);
    RootIsChain(second, b);
    ChildIsChain(second, c, 0, ["y"]);
    assert b in second && Defines(second, 0);
    assert forall n :: n in first <==> n == a;
    assert forall n :: n in second <==> n == b || n == c;
  }

  /** A module that defines an index twice can put an entry into the table that is its own parent. */
  lemma DuplicateIndexMakesCycle() returns (ms: seq<Nodes>)
    ensures MergeAll(ms).Some? && TableInv(MergeAll(ms).value.table) && !ParentsFirst(MergeAll(ms).value.table)
  {
    var root, child := MetaData(5, "r", None), MetaData(5, "a", Some(5));
    var nodes := [root, child];
    ms := [nodes];
    MergesOne(nodes);
    hide MergeAll;
    var table := [MetaData(0, "r", None)];
    ReadsRootThenChild(nodes, root, child, table);
    ResolvesToItself(child, table);
    hide *;
    CycleShows(table + [MetaData(1, "a", Some(1))]);
  }

  lemma MergesOne(nodes: Nodes)
    ensures var s := ReadLines(nodes, []);
      Resolvable(s) ==> MergeAll([nodes]).Some? && MergeAll([nodes]).value.table == ResolveAll(s).table
  {
    hide ReadLines, Resolvable, ResolveAll;
    assert [nodes][..0] == [] && MergeAll([]) == Some(Merged([], []));
  }

  lemma CycleShows(table: Table)
    requires table == [MetaData(0, "r", None)] + [MetaData(1, "a", Some(1))]
    ensures TableInv(table) && !ParentsFirst(table)
  {
    assert table[1].parent == Some(1);
  }

  lemma ResolvesToItself(child: MetaData, table: Table)
    requires child == MetaData(5, "a", Some(5)) && table == [MetaData(0, "r", None)]
    ensures var s := Resolution([child], map[5 := 0], table);
      Resolvable(s) && ResolveAll(s).table == table + [MetaData(1, "a", Some(1))]
  {
    var s := Resolution([child], map[5 := 0], table);
    assert !Known(table, "a") && Direct(child, s);
    assert Grounded(0, child, s);
    var r := Resolve(s, 0);
    assert r == Resolution([], map[5 := 1], table + [MetaData(1, "a", Some(1))]);
    assert Sweep(s, 0) == Sweep(r, 0) == r;
  }

  lemma ReadsRootThenChild(nodes: Nodes, root: MetaData, child: MetaData, table: Table)
    requires nodes == [root, child] && root.parent.None? && child.parent.Some? && table == [MetaData(0, root.name, None)]
    ensures ReadLines(nodes, []) == Resolution([child], map[root.index := 0], table)
  {
    assert nodes[..1] == [root] && [root][..0] == [];
    assert ReadLines([], []) == Resolution([], map[], []);
    assert [] + table == table;
    assert ReadLines([root], []) == Resolution([], map[root.index := 0], table);
  }
}

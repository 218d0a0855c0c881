/**
 The Trie objects of the generator. Each method updates the objects in place and computes the value that
 KeywordTrie and KeywordCode describe.
 */
module KeywordTrieNodes {
  import opened Prelude
  import T = KeywordTrie
  import C = KeywordCode

  class Node {
    var prefix: Text
    var keys: seq<Node>  // the dictionary of children, in iteration order
    var value: Option<T.Token>
    var fullPrefix: Text
    var selfWeight: real
    var weight: real
    ghost var tree: T.Trie
    ghost var Repr: set<object>

    /** The objects below this one form a tree, and `tree` is its value. */
    ghost predicate Valid()
      reads this, Repr
      decreases Repr
    {
      && this in Repr
      && (forall i :: 0 <= i < |keys| ==>
          keys[i] in Repr && keys[i].Repr <= Repr && this !in keys[i].Repr && keys[i].Valid())
      && (forall i, j :: 0 <= i < j < |keys| ==> keys[i].Repr !! keys[j].Repr)
      && tree == T.Trie(prefix, value, tree.keys, fullPrefix, selfWeight, weight)
      && |tree.keys| == |keys|
      && (forall i :: 0 <= i < |keys| ==> tree.keys[i] == keys[i].tree)
    }

    constructor (prefix: Text)
      ensures Valid() && fresh(Repr) && Repr == {this}
      ensures tree == T.Fresh(prefix)
    {
      this.prefix, keys, value := prefix, [], None;
      fullPrefix, selfWeight, weight := [], 0.0, 0.0;
      tree := T.Fresh(prefix);
      Repr := {this};
    }

    /** The position of the child keyed by p, or the number of children. */
    method Find(p: Text) returns (i: nat)
      requires Valid()
      ensures i == T.IndexOf(tree.keys, p)
    {
      i := 0;
      while i < |keys| && keys[i].prefix != p
        invariant i <= |keys|
        invariant forall j :: 0 <= j < i ==> keys[j].prefix != p
      {
        i := i + 1;
      }
      assert forall j :: 0 <= j < |keys| ==> tree.keys[j].prefix == keys[j].prefix;
    }

    method AddChild(p: Text)
      requires Valid()
      modifies this
      ensures Valid() && fresh(Repr - old(Repr))
      ensures tree == old(tree).(keys := old(tree).keys + [T.Fresh(p)])
      ensures |keys| == |old(keys)| + 1
    {
      var child := new Node(p);
      keys := keys + [child];
      tree := tree.(keys := tree.keys + [child.tree]);
      Repr := Repr + child.Repr;
    }

    /** Insert into child i. */
    method InsertBelow(i: nat, key: Text, v: T.Token)
      requires Valid() && i < |keys|
      modifies Repr
      ensures Valid() && fresh(Repr - old(Repr))
      ensures tree == old(tree).(keys := old(tree).keys[i := T.Insert(old(tree).keys[i], key, v)])
      decreases |key|, 2
    {
      var child := keys[i];
      child.Insert(key, v);
      assert forall j :: 0 <= j < |keys| && j != i ==> keys[j].Repr !! child.Repr;
      assert forall j :: 0 <= j < |keys| && j != i ==> keys[j].Valid() && keys[j].tree == old(keys[j].tree);
      Repr := Repr + child.Repr;
      tree := tree.(keys := tree.keys[i := child.tree]);
    }

    method Insert(key: Text, v: T.Token)
      requires Valid()
      modifies Repr
      ensures Valid() && fresh(Repr - old(Repr))
      ensures tree == T.Insert(old(tree), key, v)
      decreases |key|, 1
    {
      hide T.IndexOf;
      if |key| == 0 {
        value := Some(v);
        tree := tree.(value := value);
        return;
      }
      var i := Find(key[..1]);
      if i == |keys| {
        AddChild(key[..1]);
      }
      InsertBelow(i, key[1..], v);
      assert T.IndexOf(old(tree).keys, key[..1]) == i;
    }

    /** self.keys = keys, for children that come from below this node or are new. */
    ghost method Adopt(footprint: set<object>)
      requires this in Repr && this !in footprint
      requires Children(keys, footprint)
      modifies this`tree, this`Repr
      ensures Valid() && Repr == footprint + {this}
      ensures tree == T.Trie(prefix, value, Trees(keys), fullPrefix, selfWeight, weight)
    {
      Repr := footprint + {this};
      tree := T.Trie(prefix, value, Trees(keys), fullPrefix, selfWeight, weight);
    }

    /** The node that stands for this one and its only child. */
    method Merged() returns (res: Node)
      requires Valid() && |keys| == 1
      ensures res.Valid() && fresh(res.Repr - Repr)
      ensures var k := tree.keys[0];
        res.tree == T.Fresh(prefix + k.prefix).(value := k.value, keys := k.keys)
    {
      var suffix := keys[0];
      res := new Node(prefix + suffix.prefix);
      res.value := suffix.value;
      res.keys := suffix.keys;
      res.Repr := {res} + suffix.Repr;
      res.tree := res.tree.(value := suffix.value, keys := suffix.tree.keys);
    }

    /** Children n and up have the values ts and the objects reprs, all apart from each other and from a footprint. */
    ghost predicate Waiting(n: nat, ts: seq<T.Trie>, reprs: seq<set<object>>, footprint: set<object>)
      reads *
    {
      && |ts| == |reprs| == |keys| && this !in footprint
      && (forall k :: n <= k < |keys| ==> keys[k].Valid() && keys[k].Repr == reprs[k] && keys[k].tree == ts[k])
      && (forall k :: n <= k < |keys| ==> this !in reprs[k] && reprs[k] !! footprint)
      && (forall j, k :: n <= j < k < |keys| ==> reprs[j] !! reprs[k])
    }

    /** One turn of the loop of `coalesce`. */
    method CoalesceNext(n: nat, nodes: seq<Node>, ghost footprint: set<object>, ghost ts: seq<T.Trie>, ghost reprs: seq<set<object>>)
      returns (nodes': seq<Node>, ghost footprint': set<object>)
      requires n < |keys| && Waiting(n, ts, reprs, footprint) && Children(nodes, footprint)
      modifies keys[n].Repr
      ensures Waiting(n + 1, ts, reprs, footprint') && Children(nodes', footprint')
      ensures fresh(footprint' - footprint - reprs[n])
      ensures Trees(nodes') == T.DictPut(old(Trees(nodes)), T.Coalesce(ts[n]))
      decreases keys[n].Repr, 2
    {
      var c := keys[n].Coalesce();
      assert Children(nodes, footprint) && Trees(nodes) == old(Trees(nodes));
      nodes', footprint' := Put(nodes, c, footprint);
    }

    /** The loop of `coalesce`: the new dictionary, before it replaces the old one. */
    method CoalesceChildren() returns (newKeys: seq<Node>, ghost footprint: set<object>)
      requires Valid()
      modifies Repr - {this}
      ensures Children(newKeys, footprint) && fresh(footprint - old(Repr)) && this !in footprint
      ensures Trees(newKeys) == T.CoalesceFirst(tree, |tree.keys|)
      decreases Repr, 0
    {
      newKeys, footprint := [], {};
      ghost var reprs := seq(|keys|, i requires 0 <= i < |keys| reads this, keys => keys[i].Repr);
      var n := 0;
      while n < |keys|
        invariant n <= |keys| && Waiting(n, tree.keys, reprs, footprint)
        invariant Children(newKeys, footprint) && Trees(newKeys) == T.CoalesceFirst(tree, n)
        invariant fresh(footprint - old(Repr))
      {
        newKeys, footprint := CoalesceNext(n, newKeys, footprint, tree.keys, reprs);
        n := n + 1;
      }
    }

    method Coalesce() returns (res: Node)
      requires Valid()
      modifies Repr
      ensures Valid() && fresh(Repr - old(Repr)) && tree == T.CoalesceInPlace(old(tree))
      ensures res.Valid() && fresh(res.Repr - old(Repr)) && res.tree == T.Coalesce(old(tree))
      decreases Repr, 1
    {
      hide T.Coalesce, T.CoalesceFirst, T.Merge;
      T.CoalesceIs(tree);
      var newKeys, footprint := CoalesceChildren();
      keys := newKeys;
      Adopt(footprint);
      res := Result();
    }

    /** What `coalesce` returns once the new dictionary is in place: this node, or one for it and its only child. */
    method Result() returns (res: Node)
      requires Valid()
      ensures res.Valid() && fresh(res.Repr - Repr) && res.tree == T.Merge(tree)
    {
      if value != None || |keys| != 1 {
        res := this;
      } else {
        res := Merged();
      }
    }

    /** One turn of the loop of `fillOut`. */
    method FillOutNext(n: nat, full: Text, weights: map<Text, real>, ghost ts: seq<T.Trie>, ghost reprs: seq<set<object>>)
      returns (w: real)
      requires n < |keys| && Filling(n, full, weights, ts, reprs)
      modifies keys[n].Repr
      ensures Filling(n + 1, full, weights, ts, reprs)
      ensures w == T.FillOut(ts[n], full, weights).weight
      decreases keys[n].Repr, 2
    {
      keys[n].FillOut(full, weights);
      w := keys[n].weight;
    }

    /** The children are the roots of disjoint trees, with the objects reprs, below this node. */
    ghost predicate Apart(reprs: seq<set<object>>)
      reads *
    {
      && |reprs| == |keys| && this in Repr
      && (forall k :: 0 <= k < |keys| ==> keys[k].Valid() && keys[k].Repr == reprs[k])
      && (forall k :: 0 <= k < |keys| ==> reprs[k] <= Repr && this !in reprs[k])
      && (forall j, k :: 0 <= j < k < |keys| ==> reprs[j] !! reprs[k])
    }

    /** The first n children are filled out, the others are as they were. */
    ghost predicate Filling(n: nat, full: Text, weights: map<Text, real>, ts: seq<T.Trie>, reprs: seq<set<object>>)
      reads *
    {
      && Apart(reprs) && |ts| == |keys|
      && forall k :: 0 <= k < |keys| ==> keys[k].tree == if k < n then T.FillOut(ts[k], full, weights) else ts[k]
    }

    /** The loop of `fillOut`. */
    method FillOutChildren(weights: map<Text, real>, ghost t: T.Trie, ghost reprs: seq<set<object>>) returns (w: real)
      requires Filling(0, fullPrefix, weights, t.keys, reprs)
      modifies Repr - {this}
      ensures Filling(|keys|, fullPrefix, weights, t.keys, reprs)
      ensures w == selfWeight + T.TotalWeight(T.FillOutFirst(t, fullPrefix, weights, |t.keys|))
      decreases Repr, 0
    {
      hide T.FillOut, T.TotalWeight, T.FillOutFirst;
      w := selfWeight;
      T.NoWeight(t, fullPrefix, weights);
      for n := 0 to |keys|
        invariant Filling(n, fullPrefix, weights, t.keys, reprs)
        invariant w == selfWeight + T.TotalWeight(T.FillOutFirst(t, fullPrefix, weights, n))
      {
        var weight := FillOutNext(n, fullPrefix, weights, t.keys, reprs);
        w := w + weight;
        T.TotalWeightStep(t, fullPrefix, weights, n);
      }
    }

    /** The assignments of `fillOut` before its loop. */
    method SetPrefix(pre: Text, weights: map<Text, real>, ghost reprs: seq<set<object>>)
      requires Valid() && |reprs| == |keys| && forall k :: 0 <= k < |keys| ==> reprs[k] == keys[k].Repr
      modifies this`fullPrefix, this`selfWeight
      ensures fullPrefix == pre + prefix && selfWeight == T.OwnWeight(fullPrefix, weights)
      ensures Filling(0, fullPrefix, weights, tree.keys, reprs)
    {
      fullPrefix := pre + prefix;
      selfWeight := if fullPrefix in weights then weights[fullPrefix] else 0.0;
    }

    method FillOut(pre: Text, weights: map<Text, real>)
      requires Valid()
      modifies Repr
      ensures Valid() && Repr == old(Repr)
      ensures tree == T.FillOut(old(tree), pre, weights)
      decreases Repr, 1
    {
      ghost var reprs := seq(|keys|, i requires 0 <= i < |keys| reads this, keys => keys[i].Repr);
      ghost var t := tree;
      SetPrefix(pre, weights, reprs);
      var w := FillOutChildren(weights, t, reprs);
      FinishFillOut(w, pre, weights, t, reprs);
    }

    /** The end of `fillOut`, once the children are filled out. */
    method FinishFillOut(w: real, ghost pre: Text, ghost weights: map<Text, real>, ghost t: T.Trie, ghost reprs: seq<set<object>>)
      requires Filling(|keys|, fullPrefix, weights, t.keys, reprs) && t.prefix == prefix && t.value == value
      requires fullPrefix == pre + prefix && selfWeight == T.OwnWeight(fullPrefix, weights)
      requires w == selfWeight + T.TotalWeight(T.FillOutFirst(t, fullPrefix, weights, |t.keys|))
      modifies this`keys, this`tree, this`weight
      ensures Valid() && tree == T.FillOut(t, pre, weights)
    {
      hide T.FillOut, T.FillOutFirst, T.SortByWeight, T.TotalWeight, T.OwnWeight;
      FilledTrees(weights, t, reprs);
      Arrange(w, reprs);
      T.FillOutIs(t, pre, weights, tree);
    }

    lemma FilledTrees(weights: map<Text, real>, t: T.Trie, reprs: seq<set<object>>)
      requires Filling(|keys|, fullPrefix, weights, t.keys, reprs)
      ensures Trees(keys) == T.FillOutFirst(t, fullPrefix, weights, |t.keys|) && Apart(reprs)
    {
      T.FillOutFirstEntries(t, fullPrefix, weights, |t.keys|);
    }

    /** The last assignments of `fillOut`: put the children in order. The objects below this one stay the same. */
    method Arrange(w: real, ghost reprs: seq<set<object>>)
      requires Apart(reprs)
      modifies this`keys, this`tree, this`weight
      ensures Valid()
      ensures tree == T.Trie(prefix, value, T.SortByWeight(old(Trees(keys))), fullPrefix, selfWeight, w)
    {
      hide T.SortByWeight;
      var sorted := SortNodes(keys);
      SameNodes(keys, sorted);
      forall i | 0 <= i < |sorted|
        ensures sorted[i] in Repr && sorted[i].Repr <= Repr && this !in sorted[i].Repr && sorted[i].Valid()
      {
        assert sorted[i] in keys;
        var k :| 0 <= k < |keys| && keys[k] == sorted[i];
        assert keys[k].Repr == reprs[k];
      }
      keys, weight := sorted, w;
      tree := T.Trie(prefix, value, Trees(keys), fullPrefix, selfWeight, weight);
    }

    method MaxLength() returns (max: nat)
      requires Valid()
      ensures max == T.MaxLength(tree)
      decreases Repr
    {
      max := |fullPrefix|;
      for n := 0 to |keys|
        invariant max == T.MaxLengthFirst(tree, n)
      {
        var l := keys[n].MaxLength();
        if l > max {
          max := l;
        }
      }
    }

    /** One arm of the else-if chain. */
    method PrintBranch(n: nat) returns (b: C.Branch)
      requires Valid() && T.LaidOut(tree) && n < |keys|
      ensures C.PrintFirst(tree, n + 1) == C.PrintFirst(tree, n) + [b]
      decreases Repr, 0
    {
      var child := keys[n];
      assert child.tree == tree.keys[n] && child.tree in tree.keys;
      var baseIndex, k := |fullPrefix|, child.prefix;
      if baseIndex > 0 && |k| == 3 {
        baseIndex := baseIndex - 1;
        k := [child.fullPrefix[baseIndex]] + k;
      }
      var body := child.PrintSubTree();
      b := C.Branch(baseIndex, k, body);
    }

    method PrintSubTree() returns (code: C.Code)
      requires Valid() && T.LaidOut(tree)
      ensures code == C.PrintSubTree(tree)
      decreases Repr, 1
    {
      hide T.LaidOut, C.PrintFirst;
      NoArms();
      var accept := None;
      if value != None {
        accept := Some(C.Accept(|fullPrefix|, |fullPrefix|, fullPrefix, value.value));
      }
      var chain := [];
      for n := 0 to |keys|
        invariant chain == C.PrintFirst(tree, n)
      {
        var b := PrintBranch(n);
        chain := chain + [b];
      }
      code := C.Code(accept, chain);
    }
  }

  lemma NoArms()
    ensures forall t :: T.LaidOut(t) ==> C.PrintFirst(t, 0) == []
  {
  }

  /** A permutation of disjoint trees is a sequence of disjoint trees. */
  lemma SameNodes(nodes: seq<Node>, sorted: seq<Node>)
    requires multiset(sorted) == multiset(nodes)
    requires forall i :: 0 <= i < |nodes| ==> nodes[i] in nodes[i].Repr
    requires forall i, j :: 0 <= i < j < |nodes| ==> nodes[i].Repr !! nodes[j].Repr
    ensures forall c :: c in sorted <==> c in nodes
    ensures forall i, j :: 0 <= i < j < |sorted| ==> sorted[i].Repr !! sorted[j].Repr
  {
    forall c ensures c in sorted <==> c in nodes {
      assert c in sorted <==> c in multiset(sorted);
      assert c in nodes <==> c in multiset(nodes);
    }
    forall i, j | 0 <= i < j < |sorted| ensures sorted[i].Repr !! sorted[j].Repr {
      assert sorted[i] in nodes && sorted[j] in nodes;
      if sorted[i] == sorted[j] {
        OnceOnly(nodes, sorted[i]);
        TwoPositions(sorted, i, j);
      }
    }
  }

  /** The nodes in stable descending order of weight. */
  method SortNodes(nodes: seq<Node>) returns (r: seq<Node>)
    requires forall i :: 0 <= i < |nodes| ==> nodes[i].tree.weight == nodes[i].weight
    ensures Trees(r) == T.SortByWeight(Trees(nodes)) && multiset(r) == multiset(nodes)
  {
    hide T.InsertByWeight;
    r := [];
    for n := 0 to |nodes|
      invariant Trees(r) == T.SortByWeight(Trees(nodes)[..n]) && multiset(r) == multiset(nodes[..n])
      invariant forall i :: 0 <= i < |r| ==> r[i].tree.weight == r[i].weight
    {
      assert Trees(nodes)[..n + 1][..n] == Trees(nodes)[..n];
      assert nodes[..n + 1] == nodes[..n] + [nodes[n]];
      r := InsertNode(r, nodes[n]);
    }
    assert nodes[..|nodes|] == nodes && Trees(nodes)[..|nodes|] == Trees(nodes);
  }

  /** The place of c: after every node that weighs at least as much. */
  method Place(nodes: seq<Node>, c: Node) returns (i: nat)
    requires forall j :: 0 <= j < |nodes| ==> nodes[j].tree.weight == nodes[j].weight
    requires c.tree.weight == c.weight
    ensures i <= |nodes| && T.InsertByWeight(Trees(nodes), c.tree) == Trees(nodes)[..i] + [c.tree] + Trees(nodes)[i..]
  {
    ghost var ts := Trees(nodes);
    i := |nodes|;
    assert ts[..i] == ts && forall j :: 0 <= j < |nodes| ==> ts[j].weight == nodes[j].weight;
    while i > 0 && nodes[i - 1].weight < c.weight
      invariant i <= |nodes|
      invariant T.InsertByWeight(ts, c.tree) == T.InsertByWeight(ts[..i], c.tree) + ts[i..]
    {
      T.InsertByWeightStep(ts, i, c.tree);
      i := i - 1;
    }
  }

  method InsertNode(nodes: seq<Node>, c: Node) returns (r: seq<Node>)
    requires forall i :: 0 <= i < |nodes| ==> nodes[i].tree.weight == nodes[i].weight
    requires c.tree.weight == c.weight
    ensures Trees(r) == T.InsertByWeight(Trees(nodes), c.tree) && multiset(r) == multiset(nodes) + multiset{c}
    ensures forall i :: 0 <= i < |r| ==> r[i].tree.weight == r[i].weight
  {
    var i := Place(nodes, c);
    r := nodes[..i] + [c] + nodes[i..];
    Splice(nodes, i, c);
  }

  lemma Splice(nodes: seq<Node>, i: nat, c: Node)
    requires i <= |nodes|
    ensures Trees(nodes[..i] + [c] + nodes[i..]) == Trees(nodes)[..i] + [c.tree] + Trees(nodes)[i..]
    ensures multiset(nodes[..i] + [c] + nodes[i..]) == multiset(nodes) + multiset{c}
  {
    assert nodes == nodes[..i] + nodes[i..];
  }

  ghost function Trees(nodes: seq<Node>): seq<T.Trie>
    reads nodes
  {
    seq(|nodes|, i requires 0 <= i < |nodes| reads nodes => nodes[i].tree)
  }

  /** The nodes are the roots of disjoint trees inside a footprint. */
  ghost predicate Children(nodes: seq<Node>, footprint: set<object>)
    reads nodes, footprint
  {
    && (forall i :: 0 <= i < |nodes| ==> nodes[i] in footprint && nodes[i].Repr <= footprint && nodes[i].Valid())
    && (forall i, j :: 0 <= i < j < |nodes| ==> nodes[i].Repr !! nodes[j].Repr)
  }

  /** keys[t.prefix] = t on a dictionary of nodes. */
  method Put(nodes: seq<Node>, c: Node, ghost footprint: set<object>) returns (r: seq<Node>, ghost footprint': set<object>)
    requires Children(nodes, footprint) && c.Valid() && c.Repr !! footprint
    ensures footprint' == footprint + c.Repr
    ensures Children(r, footprint') && Trees(r) == T.DictPut(Trees(nodes), c.tree)
  {
    var i := 0;
    while i < |nodes| && nodes[i].prefix != c.prefix
      invariant i <= |nodes|
      invariant forall j :: 0 <= j < i ==> nodes[j].prefix != c.prefix
    {
      i := i + 1;
    }
    assert forall j :: 0 <= j < |nodes| ==> Trees(nodes)[j].prefix == nodes[j].prefix;
    assert T.IndexOf(Trees(nodes), c.tree.prefix) == i;
    r := if i < |nodes| then nodes[i := c] else nodes + [c];
    footprint' := footprint + c.Repr;
    assert |r| == |T.DictPut(Trees(nodes), c.tree)|;
    assert forall j :: 0 <= j < |r| ==> r[j] == if j == i then c else nodes[j];
  }

  /** The generator: build the trie, coalesce it, lay it out, print it. */
  method Generate(table: T.Table, weights: map<Text, real>) returns (maxTokenLength: nat, code: C.Code)
    ensures maxTokenLength == C.TokenLength(table, weights)
    ensures code == C.Generate(table, weights)
  {
    hide T.Coalesce, T.CoalesceInPlace, T.FillOut, T.Insert, T.MaxLength, C.PrintSubTree, T.LaidOut, T.Radix, T.Branching,
         T.Weighted, T.Lookup;
    var trie := new Node([]);
    for n := 0 to |table|
      invariant trie.Valid() && fresh(trie.Repr) && trie.tree == T.Build(table[..n])
    {
      var (k, v) := table[n];
      trie.Insert(k, v);
      assert table[..n + 1][..n] == table[..n];
    }
    assert table[..|table|] == table;
    var _ := trie.Coalesce();
    trie.FillOut([], weights);
    T.PrepareIsDictionary(table, weights);
    maxTokenLength := trie.MaxLength();
    maxTokenLength := maxTokenLength + 1;
    code := trie.PrintSubTree();
  }
}

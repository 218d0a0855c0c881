/**
 The trie behind the keyword recogniser: insertion of the keyword table, coalescing into a radix tree
 and the layout pass that orders siblings by weight. Tries are values here; KeywordTrieNodes.dfy shows
 that the objects updated in place compute the same values.
 */
module KeywordTrie {
  import opened Prelude

  type Token = string

  /** `keys` is the dictionary of children in iteration order: an entry's key is its trie's prefix.
      The last three fields are filled by FillOut. */
  datatype Trie = Trie(prefix: Text, value: Option<Token>, keys: seq<Trie>,
                       fullPrefix: Text, selfWeight: real, weight: real)

  function Fresh(prefix: Text): Trie {
    Trie(prefix, None, [], [], 0.0, 0.0)
  }

  // ---------------------------------------------------------------- dictionaries of children

  /** The position of the child keyed by p, or |keys|. */
  function IndexOf(keys: seq<Trie>, p: Text): (i: nat)
    ensures i <= |keys|
    ensures i < |keys| ==> keys[i].prefix == p
    ensures forall j :: 0 <= j < i ==> keys[j].prefix != p
  {
    if keys == [] then 0
    else if keys[0].prefix == p then 0
    else 1 + IndexOf(keys[1..], p)
  }

  /** keys[t.prefix] = t */
  function DictPut(keys: seq<Trie>, t: Trie): seq<Trie> {
    var i := IndexOf(keys, t.prefix);
    if i < |keys| then keys[i := t] else keys + [t]
  }

  // ---------------------------------------------------------------- the meaning of a trie

  predicate Starts(t: Trie, w: Text) {
    t.prefix != [] && t.prefix <= w
  }

  /** The position of the first child whose label starts w, or |keys|. */
  function IndexFor(keys: seq<Trie>, w: Text): (i: nat)
    ensures i <= |keys|
    ensures i < |keys| ==> Starts(keys[i], w)
    ensures forall j :: 0 <= j < i ==> !Starts(keys[j], w)
  {
    if keys == [] then 0
    else if Starts(keys[0], w) then 0
    else 1 + IndexFor(keys[1..], w)
  }

  /** The value stored for the word w below the root of t. */
  function Lookup(t: Trie, w: Text): Option<Token>
    decreases |w|
  {
    if w == [] then t.value
    else
      var i := IndexFor(t.keys, w);
      if i < |t.keys| then Lookup(t.keys[i], w[|t.keys[i].prefix|..]) else None
  }

  /** Lookup of a word that starts with t's own label. */
  function LookupWithPrefix(t: Trie, w: Text): Option<Token> {
    if t.prefix <= w then Lookup(t, w[|t.prefix|..]) else None
  }

  ghost predicate Distinct(keys: seq<Trie>) {
    && (forall i :: 0 <= i < |keys| ==> keys[i].prefix != [])
    && (forall i, j :: 0 <= i < j < |keys| ==> keys[i].prefix[0] != keys[j].prefix[0])
  }

  /** Siblings have labels that start with different characters, all the way down. */
  ghost predicate Radix(t: Trie) {
    Distinct(t.keys) && forall c :: c in t.keys ==> Radix(c)
  }

  /** Every label below the root is one character, as `insert` makes them. */
  ghost predicate SingleCharacters(t: Trie) {
    forall c :: c in t.keys ==> |c.prefix| == 1 && SingleCharacters(c)
  }

  /** Every node below the root has a value or at least `least` children. */
  ghost predicate Branching(t: Trie, least: nat) {
    forall c :: c in t.keys ==> (c.value.Some? || |c.keys| >= least) && Branching(c, least)
  }

  /** What the insertions establish. */
  ghost predicate Inserted(t: Trie) {
    Radix(t) && SingleCharacters(t) && Branching(t, 1)
  }

  // ---------------------------------------------------------------- insert

  function Insert(t: Trie, key: Text, value: Token): Trie
    decreases |key|
  {
    if |key| == 0 then t.(value := Some(value))
    else
      var i := IndexOf(t.keys, key[..1]);
      if i < |t.keys| then
        t.(keys := t.keys[i := Insert(t.keys[i], key[1..], value)])
      else
        t.(keys := t.keys + [Insert(Fresh(key[..1]), key[1..], value)])
  }

  /** The keyword table, in file order. */
  type Table = seq<(Text, Token)>

  function Build(table: Table): Trie {
    if table == [] then Fresh([])
    else
      var (k, v) := table[|table| - 1];
      Insert(Build(table[..|table| - 1]), k, v)
  }

  /** The plain dictionary a table stands for: a later line replaces an earlier one. */
  function Dictionary(table: Table): map<Text, Token> {
    if table == [] then map[]
    else
      var (k, v) := table[|table| - 1];
      Dictionary(table[..|table| - 1])[k := v]
  }

  function Get(d: map<Text, Token>, w: Text): Option<Token> {
    if w in d then Some(d[w]) else None
  }

  lemma InsertShape(t: Trie, key: Text, value: Token)
    ensures Insert(t, key, value).prefix == t.prefix
    ensures |key| > 0 ==> |Insert(t, key, value).keys| >= 1 && Insert(t, key, value).value == t.value
    ensures |key| == 0 ==> Insert(t, key, value).value.Some?
    ensures |Insert(t, key, value).keys| >= |t.keys|
  {
  }

  lemma {:induction false} InsertKeepsInvariant(t: Trie, key: Text, value: Token)
    requires Inserted(t)
    ensures Inserted(Insert(t, key, value))
    decreases |key|
  {
    if |key| > 0 {
      var i := IndexOf(t.keys, key[..1]);
      var child := if i < |t.keys| then t.keys[i] else Fresh(key[..1]);
      InsertKeepsInvariant(child, key[1..], value);
      InsertShape(child, key[1..], value);
      var r := Insert(t, key, value);
      forall c | c in r.keys
        ensures |c.prefix| == 1 && SingleCharacters(c) && Radix(c)
        ensures (c.value.Some? || |c.keys| >= 1) && Branching(c, 1)
      {
      }
      forall j | 0 <= j < |t.keys| && j != i
        ensures t.keys[j].prefix[0] != key[0]
      {
        assert |t.keys[j].prefix| == 1;
        if i < |t.keys| {
          assert t.keys[i].prefix == key[..1];
        } else {
          assert t.keys[j].prefix != key[..1];
        }
      }
    }
  }

  lemma SelectsChild(keys: seq<Trie>, w: Text, i: nat)
    requires Distinct(keys) && i < |keys| && Starts(keys[i], w)
    ensures IndexFor(keys, w) == i
  {
  }

  lemma SelectsNone(keys: seq<Trie>, w: Text)
    requires forall j :: 0 <= j < |keys| ==> !Starts(keys[j], w)
    ensures IndexFor(keys, w) == |keys|
  {
  }

  /** Inserting below one child leaves the selection of the others alone. */
  lemma SelectsOther(keys: seq<Trie>, r: seq<Trie>, w: Text, i: nat)
    requires i <= |keys| && |r| == (if i < |keys| then |keys| else |keys| + 1)
    requires forall m :: 0 <= m < |keys| && m != i ==> r[m] == keys[m]
    requires i < |keys| ==> !Starts(keys[i], w)
    requires !Starts(r[i], w)
    ensures IndexFor(r, w) == if IndexFor(keys, w) < |keys| then IndexFor(keys, w) else |r|
  {
    var j := IndexFor(keys, w);
    var k := IndexFor(r, w);
    assert k < |r| ==> k != i;
  }

  /** One step of `insert`: the child that takes the rest of the key, and where it is put. */
  lemma InsertStep(t: Trie, key: Text, value: Token, i: nat, child: Trie)
    requires |key| > 0 && i == IndexOf(t.keys, key[..1])
    requires child == if i < |t.keys| then t.keys[i] else Fresh(key[..1])
    ensures var r := Insert(t, key, value);
      && |r.keys| == (if i < |t.keys| then |t.keys| else |t.keys| + 1)
      && r.keys[i] == Insert(child, key[1..], value) && r.keys[i].prefix == key[..1]
      && forall m :: 0 <= m < |t.keys| && m != i ==> r.keys[m] == t.keys[m]
  {
    InsertShape(child, key[1..], value);
  }

  lemma OneCharacterPrefix(p: Text, w: Text)
    requires |p| == 1 && |w| > 0
    ensures p <= w <==> p == w[..1]
  {
  }

  lemma InsertLookupHere(keys: seq<Trie>, r: seq<Trie>, key: Text, value: Token, w: Text, i: nat, child: Trie)
    requires |key| > 0 && |w| > 0 && w[0] == key[0] && i == IndexOf(keys, key[..1])
    requires child == if i < |keys| then keys[i] else Fresh(key[..1])
    requires Distinct(keys) && Distinct(r) && forall j :: 0 <= j < |keys| ==> |keys[j].prefix| == 1
    requires i < |r| && r[i].prefix == key[..1]
    requires Lookup(r[i], w[1..]) == if w[1..] == key[1..] then Some(value) else Lookup(child, w[1..])
    ensures IndexFor(r, w) == i
    ensures Lookup(r[i], w[1..]) ==
        if w == key then Some(value)
        else if IndexFor(keys, w) < |keys| then Lookup(keys[IndexFor(keys, w)], w[1..])
        else None
  {
    SelectsChild(r, w, i);
    assert w == key <==> w[1..] == key[1..] by {
      assert w == [w[0]] + w[1..] && key == [key[0]] + key[1..];
    }
    assert w[..1] == key[..1];
    if i < |keys| {
      SelectsChild(keys, w, i);
    } else {
      NoChildFor(keys, w);
    }
  }

  lemma NoChildFor(keys: seq<Trie>, w: Text)
    requires |w| > 0 && IndexOf(keys, w[..1]) == |keys| && forall j :: 0 <= j < |keys| ==> |keys[j].prefix| == 1
    ensures IndexFor(keys, w) == |keys|
  {
    forall j | 0 <= j < |keys| ensures !Starts(keys[j], w) {
      OneCharacterPrefix(keys[j].prefix, w);
    }
    SelectsNone(keys, w);
  }

  /** Inserting a key changes the value of that key and of no other word. */
  lemma {:induction false} InsertLookup(t: Trie, key: Text, value: Token, w: Text)
    requires Inserted(t)
    ensures Lookup(Insert(t, key, value), w) == if w == key then Some(value) else Lookup(t, w)
    decreases |key|
  {
    if |key| > 0 && |w| > 0 {
      var i := IndexOf(t.keys, key[..1]);
      var r := Insert(t, key, value);
      var child := if i < |t.keys| then t.keys[i] else Fresh(key[..1]);
      InsertStep(t, key, value, i, child);
      assert forall j :: 0 <= j < |t.keys| ==> t.keys[j] in t.keys && |t.keys[j].prefix| == 1;
      if w[0] == key[0] {
        assert Inserted(child);
        InsertLookup(child, key[1..], value, w[1..]);
        assert Distinct(r.keys) by { InsertKeepsInvariant(t, key, value); }
        InsertLookupHere(t.keys, r.keys, key, value, w, i, child);
      } else {
        SelectsOther(t.keys, r.keys, w, i);
      }
    }
  }

  /** The trie built from a table stores exactly the table's dictionary. */
  lemma {:induction false} BuildIsDictionary(table: Table, w: Text)
    ensures Inserted(Build(table))
    ensures Lookup(Build(table), w) == Get(Dictionary(table), w)
  {
    if table != [] {
      var rest := table[..|table| - 1];
      var (k, v) := table[|table| - 1];
      BuildIsDictionary(rest, w);
      InsertKeepsInvariant(Build(rest), k, v);
      InsertLookup(Build(rest), k, v, w);
    }
  }

  // ---------------------------------------------------------------- coalesce

  function Coalesce(t: Trie): Trie
    decreases t, |t.keys| + 1
  {
    var keys := CoalesceFirst(t, |t.keys|);
    if t.value.Some? || |keys| != 1 then t.(keys := keys)
    else Fresh(t.prefix + keys[0].prefix).(value := keys[0].value, keys := keys[0].keys)
  }

  /** The new dictionary after the first n children have been coalesced. */
  function CoalesceFirst(t: Trie, n: nat): seq<Trie>
    requires n <= |t.keys|
    decreases t, n
  {
    if n == 0 then [] else DictPut(CoalesceFirst(t, n - 1), Coalesce(t.keys[n - 1]))
  }

  /** What the object on which `coalesce` is called becomes; the caller of the root's `coalesce` keeps this
      and drops the returned trie. */
  function CoalesceInPlace(t: Trie): Trie {
    t.(keys := CoalesceFirst(t, |t.keys|))
  }

  /** A node without value and with a single child becomes one with the child. */
  function Merge(t: Trie): Trie {
    if t.value.Some? || |t.keys| != 1 then t
    else Fresh(t.prefix + t.keys[0].prefix).(value := t.keys[0].value, keys := t.keys[0].keys)
  }

  lemma CoalesceIs(t: Trie)
    ensures Coalesce(t) == Merge(CoalesceInPlace(t))
  {
  }

  lemma {:induction false} CoalescePrefix(t: Trie)
    requires Radix(t)
    ensures t.prefix <= Coalesce(t).prefix
    decreases t, 1
  {
  }

  /** No entry of the new dictionary replaces another: the children keep their order and number. */
  lemma {:induction false} CoalesceFirstEntries(t: Trie, n: nat)
    requires Radix(t) && n <= |t.keys|
    ensures |CoalesceFirst(t, n)| == n
    ensures forall i :: 0 <= i < n ==> CoalesceFirst(t, n)[i] == Coalesce(t.keys[i])
    ensures Distinct(CoalesceFirst(t, n))
    ensures forall i :: 0 <= i < n ==> t.keys[i].prefix <= CoalesceFirst(t, n)[i].prefix
    decreases n
  {
    hide DictPut, Coalesce;
    if n > 0 {
      CoalesceFirstEntries(t, n - 1);
      assert t.keys[n - 1] in t.keys;
      CoalescePrefix(t.keys[n - 1]);
      var c := Coalesce(t.keys[n - 1]);
      DictPutNewKey(CoalesceFirst(t, n - 1), c, t.keys, n - 1);
    }
  }

  lemma DictPutNewKey(before: seq<Trie>, c: Trie, keys: seq<Trie>, n: nat)
    requires n == |before| < |keys| && Distinct(keys) && Distinct(before)
    requires forall i :: 0 <= i < n ==> keys[i].prefix <= before[i].prefix
    requires keys[n].prefix <= c.prefix
    ensures DictPut(before, c) == before + [c] && Distinct(before + [c])
  {
    forall i | 0 <= i < n ensures before[i].prefix[0] != c.prefix[0] {
      assert keys[i].prefix[0] != keys[n].prefix[0];
    }
    assert IndexOf(before, c.prefix) == n;
  }

  /** Replacing the children by tries with the same words under longer labels keeps every word. */
  lemma LookupThroughChildren(t: Trie, u: Trie, w: Text)
    requires Radix(t) && Distinct(u.keys) && t.value == u.value && |t.keys| == |u.keys|
    requires forall i :: 0 <= i < |t.keys| ==> t.keys[i].prefix <= u.keys[i].prefix
    requires forall i :: 0 <= i < |t.keys| && Starts(t.keys[i], w) ==>
        LookupWithPrefix(u.keys[i], w) == Lookup(t.keys[i], w[|t.keys[i].prefix|..])
    ensures Lookup(u, w) == Lookup(t, w)
  {
    if w != [] {
      var i := IndexFor(t.keys, w);
      if i < |t.keys| {
        assert t.keys[i].prefix[0] == w[0];
        if Starts(u.keys[i], w) {
          assert IndexFor(u.keys, w) == i;
        } else {
          assert forall j :: 0 <= j < |u.keys| && j != i ==> u.keys[j].prefix[0] != w[0];
          assert IndexFor(u.keys, w) == |u.keys|;
        }
      } else {
        forall j | 0 <= j < |u.keys| ensures !Starts(u.keys[j], w) {
          assert !Starts(t.keys[j], w);
        }
        assert IndexFor(u.keys, w) == |u.keys|;
      }
    }
  }

  /** Coalescing keeps the words below a node, moving part of each into the label. */
  lemma {:induction false} CoalesceLookup(t: Trie, w: Text)
    requires Radix(t)
    ensures t.prefix <= Coalesce(t).prefix
    ensures LookupWithPrefix(Coalesce(t), t.prefix + w) == Lookup(t, w)
    ensures Lookup(CoalesceInPlace(t), w) == Lookup(t, w)
    decreases t
  {
    CoalescePrefix(t);
    CoalesceFirstEntries(t, |t.keys|);
    var u := CoalesceInPlace(t);
    forall i | 0 <= i < |t.keys| && Starts(t.keys[i], w)
      ensures LookupWithPrefix(u.keys[i], w) == Lookup(t.keys[i], w[|t.keys[i].prefix|..])
    {
      assert t.keys[i] in t.keys;
      CoalesceLookup(t.keys[i], w[|t.keys[i].prefix|..]);
      assert t.keys[i].prefix + w[|t.keys[i].prefix|..] == w;
    }
    LookupThroughChildren(t, u, w);
    assert (t.prefix + w)[|t.prefix|..] == w;
    if !(t.value.Some? || |u.keys| != 1) {
      MergedLookup(t.prefix, u, w);
    }
  }

  /** A node without value and with one child stands for the same words as the child with the longer label. */
  lemma MergedLookup(prefix: Text, u: Trie, w: Text)
    requires u.value.None? && |u.keys| == 1 && u.keys[0].prefix != []
    ensures var k := u.keys[0];
      LookupWithPrefix(Fresh(prefix + k.prefix).(value := k.value, keys := k.keys), prefix + w) == Lookup(u, w)
  {
    var k := u.keys[0];
    var c := Fresh(prefix + k.prefix).(value := k.value, keys := k.keys);
    assert c.prefix <= prefix + w <==> k.prefix <= w by {
      assert (prefix + w)[..|prefix|] == prefix;
      if c.prefix <= prefix + w {
        assert k.prefix == c.prefix[|prefix|..];
        assert k.prefix == (prefix + w)[|prefix|..|c.prefix|];
        assert k.prefix == w[..|k.prefix|];
      }
    }
    if w != [] {
      if k.prefix <= w {
        assert IndexFor(u.keys, w) == 0;
        assert (prefix + w)[|c.prefix|..] == w[|k.prefix|..];
        SameWords(c, k, w[|k.prefix|..]);
      } else {
        assert IndexFor(u.keys, w) == 1;
      }
    }
  }

  /** The words below a node depend on its value and its children only. */
  lemma SameWords(c: Trie, k: Trie, w: Text)
    requires c.value == k.value && c.keys == k.keys
    ensures Lookup(c, w) == Lookup(k, w)
  {
  }

  lemma {:induction false} CoalesceShape(t: Trie)
    requires Radix(t) && Branching(t, 1)
    ensures Radix(Coalesce(t)) && Branching(Coalesce(t), 2)
    ensures Radix(CoalesceInPlace(t)) && Branching(CoalesceInPlace(t), 2)
    ensures t.value.Some? || |t.keys| >= 1 ==> Coalesce(t).value.Some? || |Coalesce(t).keys| >= 2
    decreases t
  {
    CoalesceFirstEntries(t, |t.keys|);
    var u := CoalesceInPlace(t);
    forall c | c in u.keys
      ensures Radix(c) && (c.value.Some? || |c.keys| >= 2) && Branching(c, 2)
    {
      var i :| 0 <= i < |u.keys| && u.keys[i] == c;
      assert t.keys[i] in t.keys;
      CoalesceShape(t.keys[i]);
    }
    if |u.keys| == 1 { assert u.keys[0] in u.keys; }
  }

  // ---------------------------------------------------------------- fillOut

  /** Stable descending order by weight. */
  function SortByWeight(keys: seq<Trie>): seq<Trie> {
    if keys == [] then [] else InsertByWeight(SortByWeight(keys[..|keys| - 1]), keys[|keys| - 1])
  }

  /** Place t after every trie that weighs at least as much. */
  function InsertByWeight(keys: seq<Trie>, t: Trie): seq<Trie> {
    if keys == [] || keys[|keys| - 1].weight >= t.weight then keys + [t]
    else InsertByWeight(keys[..|keys| - 1], t) + [keys[|keys| - 1]]
  }

  /** Moving past a lighter trie. */
  lemma InsertByWeightStep(keys: seq<Trie>, i: nat, t: Trie)
    requires 0 < i <= |keys| && keys[i - 1].weight < t.weight
    ensures InsertByWeight(keys[..i], t) + keys[i..] == InsertByWeight(keys[..i - 1], t) + keys[i - 1..]
  {
    assert keys[..i][..i - 1] == keys[..i - 1];
    assert keys[i - 1..] == [keys[i - 1]] + keys[i..];
  }

  function OwnWeight(full: Text, weights: map<Text, real>): real {
    if full in weights then weights[full] else 0.0
  }

  function FillOut(t: Trie, prefix: Text, weights: map<Text, real>): Trie
    decreases t, |t.keys| + 1
  {
    var full := prefix + t.prefix;
    var self := OwnWeight(full, weights);
    var keys := FillOutFirst(t, full, weights, |t.keys|);
    t.(fullPrefix := full, selfWeight := self, weight := self + TotalWeight(keys), keys := SortByWeight(keys))
  }

  lemma FillOutIs(t: Trie, prefix: Text, weights: map<Text, real>, r: Trie)
    requires var full := prefix + t.prefix; var keys := FillOutFirst(t, full, weights, |t.keys|);
      r == Trie(t.prefix, t.value, SortByWeight(keys), full, OwnWeight(full, weights),
                OwnWeight(full, weights) + TotalWeight(keys))
    ensures r == FillOut(t, prefix, weights)
  {
  }

  function FillOutFirst(t: Trie, full: Text, weights: map<Text, real>, n: nat): (keys: seq<Trie>)
    requires n <= |t.keys|
    ensures |keys| == n
    decreases t, n
  {
    if n == 0 then [] else FillOutFirst(t, full, weights, n - 1) + [FillOut(t.keys[n - 1], full, weights)]
  }

  function TotalWeight(keys: seq<Trie>): real {
    if keys == [] then 0.0 else TotalWeight(keys[..|keys| - 1]) + keys[|keys| - 1].weight
  }

  lemma NoWeight(t: Trie, full: Text, weights: map<Text, real>)
    ensures TotalWeight(FillOutFirst(t, full, weights, 0)) == 0.0
  {
  }

  lemma TotalWeightStep(t: Trie, full: Text, weights: map<Text, real>, n: nat)
    requires n < |t.keys|
    ensures TotalWeight(FillOutFirst(t, full, weights, n + 1)) ==
        TotalWeight(FillOutFirst(t, full, weights, n)) + FillOut(t.keys[n], full, weights).weight
  {
    var first := FillOutFirst(t, full, weights, n + 1);
    assert first[..n] == FillOutFirst(t, full, weights, n);
  }

  /** The full prefixes below t have been filled in. */
  predicate LaidOut(t: Trie) {
    forall c :: c in t.keys ==> c.fullPrefix == t.fullPrefix + c.prefix && LaidOut(c)
  }

  ghost predicate Descending(keys: seq<Trie>) {
    forall i, j :: 0 <= i < j < |keys| ==> keys[i].weight >= keys[j].weight
  }

  /** Siblings are in descending order of weight, all the way down. */
  ghost predicate Weighted(t: Trie) {
    Descending(t.keys) && forall c :: c in t.keys ==> Weighted(c)
  }

  /** A node's weight is that of its own word, zero if it has none, plus those of its children, all the way down. */
  ghost predicate Summed(t: Trie, weights: map<Text, real>) {
    && (t.fullPrefix in weights ==> t.selfWeight == weights[t.fullPrefix])
    && (t.fullPrefix !in weights ==> t.selfWeight == 0.0)
    && t.weight == t.selfWeight + TotalWeight(t.keys)
    && forall c :: c in t.keys ==> Summed(c, weights)
  }

  lemma {:induction false} InsertByWeightTotal(keys: seq<Trie>, t: Trie)
    ensures TotalWeight(InsertByWeight(keys, t)) == TotalWeight(keys) + t.weight
    decreases |keys|
  {
    if keys == [] || keys[|keys| - 1].weight >= t.weight {
      assert (keys + [t])[..|keys|] == keys;
    } else {
      var init, last := keys[..|keys| - 1], keys[|keys| - 1];
      InsertByWeightTotal(init, t);
      assert (InsertByWeight(init, t) + [last])[..|InsertByWeight(init, t)|] == InsertByWeight(init, t);
    }
  }

  lemma {:induction false} SortKeepsTotal(keys: seq<Trie>)
    ensures TotalWeight(SortByWeight(keys)) == TotalWeight(keys)
    decreases |keys|
  {
    if keys != [] {
      SortKeepsTotal(keys[..|keys| - 1]);
      InsertByWeightTotal(SortByWeight(keys[..|keys| - 1]), keys[|keys| - 1]);
    }
  }

  lemma {:induction false} FillOutSums(t: Trie, prefix: Text, weights: map<Text, real>)
    ensures Summed(FillOut(t, prefix, weights), weights)
    decreases t
  {
    var f := FillOut(t, prefix, weights);
    var filled := FillOutFirst(t, f.fullPrefix, weights, |t.keys|);
    FillOutFirstEntries(t, f.fullPrefix, weights, |t.keys|);
    forall i | 0 <= i < |filled| ensures Summed(filled[i], weights) {
      FillOutSums(t.keys[i], f.fullPrefix, weights);
    }
    SortedIsSummed(f, filled, weights);
  }

  lemma SortedIsSummed(f: Trie, filled: seq<Trie>, weights: map<Text, real>)
    requires f.selfWeight == OwnWeight(f.fullPrefix, weights) && f.weight == f.selfWeight + TotalWeight(filled)
    requires f.keys == SortByWeight(filled) && forall i :: 0 <= i < |filled| ==> Summed(filled[i], weights)
    ensures Summed(f, weights)
  {
    hide SortByWeight, TotalWeight;
    SortKeepsTotal(filled);
    SortIsPermutation(filled);
    forall c | c in f.keys ensures Summed(c, weights) {
      assert c in multiset(f.keys);
      assert c in filled;
    }
  }

  lemma {:induction false} InsertByWeightIsPermutation(keys: seq<Trie>, t: Trie)
    ensures multiset(InsertByWeight(keys, t)) == multiset(keys) + multiset{t}
    decreases |keys|
  {
    if !(keys == [] || keys[|keys| - 1].weight >= t.weight) {
      assert keys == keys[..|keys| - 1] + [keys[|keys| - 1]];
      InsertByWeightIsPermutation(keys[..|keys| - 1], t);
    }
  }

  lemma {:induction false} InsertByWeightDescends(keys: seq<Trie>, t: Trie)
    requires Descending(keys)
    ensures Descending(InsertByWeight(keys, t))
    decreases |keys|
  {
    if !(keys == [] || keys[|keys| - 1].weight >= t.weight) {
      var init, last := keys[..|keys| - 1], keys[|keys| - 1];
      InsertByWeightDescends(init, t);
      InsertByWeightIsPermutation(init, t);
      var s := InsertByWeight(init, t);
      forall i | 0 <= i < |s| ensures s[i].weight >= last.weight {
        assert s[i] in multiset(s);
      }
    }
  }

  lemma {:induction false} SortIsPermutation(keys: seq<Trie>)
    ensures multiset(SortByWeight(keys)) == multiset(keys) && Descending(SortByWeight(keys))
    decreases |keys|
  {
    if keys != [] {
      var init, last := keys[..|keys| - 1], keys[|keys| - 1];
      assert keys == init + [last];
      SortIsPermutation(init);
      InsertByWeightIsPermutation(SortByWeight(init), last);
      InsertByWeightDescends(SortByWeight(init), last);
    }
  }

  /** The tries of weight w, in order. */
  function OfWeight(keys: seq<Trie>, w: real): seq<Trie> {
    if keys == [] then []
    else OfWeight(keys[..|keys| - 1], w) + if keys[|keys| - 1].weight == w then [keys[|keys| - 1]] else []
  }

  lemma {:induction false} InsertByWeightIsStable(keys: seq<Trie>, t: Trie, w: real)
    requires Descending(keys)
    ensures OfWeight(InsertByWeight(keys, t), w) == OfWeight(keys, w) + if t.weight == w then [t] else []
    decreases |keys|
  {
    if keys == [] || keys[|keys| - 1].weight >= t.weight {
      assert (keys + [t])[..|keys|] == keys;
    } else {
      var init, last := keys[..|keys| - 1], keys[|keys| - 1];
      var r := InsertByWeight(init, t);
      InsertByWeightIsStable(init, t, w);
      assert (r + [last])[..|r|] == r;
    }
  }

  /** Siblings of the same weight keep their order. */
  lemma {:induction false} SortIsStable(keys: seq<Trie>, w: real)
    ensures OfWeight(SortByWeight(keys), w) == OfWeight(keys, w)
    decreases |keys|
  {
    if keys != [] {
      var init, last := keys[..|keys| - 1], keys[|keys| - 1];
      SortIsStable(init, w);
      SortIsPermutation(init);
      InsertByWeightIsStable(SortByWeight(init), last, w);
    }
  }

  ghost predicate SelectsSame(keys: seq<Trie>, sorted: seq<Trie>, w: Text) {
    var i, j := IndexFor(keys, w), IndexFor(sorted, w);
    (i < |keys| <==> j < |sorted|) && (i < |keys| ==> keys[i] == sorted[j])
  }

  /** Whatever order the siblings are put in, they stay distinct and a word still selects the same child. */
  lemma AnySiblingOrder(keys: seq<Trie>, sorted: seq<Trie>)
    requires Distinct(keys) && multiset(sorted) == multiset(keys)
    ensures |sorted| == |keys|
    ensures forall c :: c in sorted <==> c in keys
    ensures Distinct(sorted)
    ensures forall w :: SelectsSame(keys, sorted, w)
  {
    assert |multiset(sorted)| == |sorted| && |multiset(keys)| == |keys|;
    forall c ensures c in sorted <==> c in keys {
      assert c in sorted <==> c in multiset(sorted);
      assert c in keys <==> c in multiset(keys);
    }
    forall i, j | 0 <= i < j < |sorted|
      ensures sorted[i].prefix != [] && sorted[j].prefix != []
      ensures sorted[i].prefix[0] != sorted[j].prefix[0]
    {
      var c, d := sorted[i], sorted[j];
      assert c in sorted && d in sorted;
      if c == d {
        TwoPositions(sorted, i, j);
        var k :| 0 <= k < |keys| && keys[k] == c;
        OnePosition(keys, k);
      } else {
        var k :| 0 <= k < |keys| && keys[k] == c;
        var l :| 0 <= l < |keys| && keys[l] == d;
      }
    }
    forall i | 0 <= i < |sorted| ensures sorted[i].prefix != [] {
      assert sorted[i] in sorted;
    }
    forall w
      ensures SelectsSame(keys, sorted, w)
    {
      var i, j := IndexFor(sorted, w), IndexFor(keys, w);
      if i < |sorted| {
        assert sorted[i] in sorted;
        var k :| 0 <= k < |keys| && keys[k] == sorted[i];
        assert Starts(keys[k], w);
        assert keys[j].prefix[0] == w[0] == keys[k].prefix[0];
      }
      if j < |keys| {
        assert keys[j] in sorted;
        var k :| 0 <= k < |sorted| && sorted[k] == keys[j];
        assert Starts(sorted[k], w);
      }
    }
  }

  lemma OnePosition(keys: seq<Trie>, k: nat)
    requires Distinct(keys) && k < |keys|
    ensures multiset(keys)[keys[k]] == 1
  {
    assert keys == keys[..k] + [keys[k]] + keys[k + 1..];
    assert keys[k] !in keys[..k] && keys[k] !in keys[k + 1..];
  }

  lemma {:induction false} FillOutFirstEntries(t: Trie, full: Text, weights: map<Text, real>, n: nat)
    requires n <= |t.keys|
    ensures forall i :: 0 <= i < n ==> FillOutFirst(t, full, weights, n)[i] == FillOut(t.keys[i], full, weights)
    decreases n
  {
    if n > 0 { FillOutFirstEntries(t, full, weights, n - 1); }
  }

  /** Layout keeps every word, the radix shape and the branching, fills in the prefixes, adds up the weights and orders
      siblings by them. */
  lemma {:induction false} FillOutKeeps(t: Trie, prefix: Text, weights: map<Text, real>)
    requires Radix(t)
    ensures var f := FillOut(t, prefix, weights);
      && f.prefix == t.prefix && f.value == t.value && |f.keys| == |t.keys|
      && Radix(f) && f.fullPrefix == prefix + t.prefix && LaidOut(f) && Weighted(f) && Summed(f, weights)
      && (forall least :: Branching(t, least) ==> Branching(f, least))
      && (forall w :: Lookup(f, w) == Lookup(t, w))
    decreases t
  {
    var f := FillOut(t, prefix, weights);
    var full := f.fullPrefix;
    var filled := FillOutFirst(t, full, weights, |t.keys|);
    FillOutFirstEntries(t, full, weights, |t.keys|);
    forall i | 0 <= i < |t.keys|
      ensures FilledChild(t.keys[i], filled[i], full)
      ensures forall w :: Lookup(filled[i], w) == Lookup(t.keys[i], w)
      ensures forall least :: Branching(t.keys[i], least) ==> Branching(filled[i], least)
    {
      assert t.keys[i] in t.keys;
      FillOutKeeps(t.keys[i], full, weights);
    }
    FillOutSums(t, prefix, weights);
    FillOutSorted(t, f, filled);
    FillOutWords(t, f, filled);
    FillOutBranching(t, f, filled);
  }

  /** What FillOutKeeps knows of the filled children before they are sorted. */
  ghost predicate FilledChild(c: Trie, k: Trie, full: Text) {
    && k.prefix == c.prefix && k.value == c.value && |k.keys| == |c.keys|
    && Radix(k) && LaidOut(k) && Weighted(k) && k.fullPrefix == full + k.prefix
  }

  /** The last step of FillOutKeeps: sorting the filled children. */
  lemma FillOutSorted(t: Trie, f: Trie, filled: seq<Trie>)
    requires Radix(t) && |filled| == |t.keys| && f.keys == SortByWeight(filled)
    requires forall i :: 0 <= i < |t.keys| ==> FilledChild(t.keys[i], filled[i], f.fullPrefix)
    ensures |f.keys| == |t.keys| && Radix(f) && Weighted(f)
    ensures LaidOut(f)
  {
    assert Distinct(filled);
    SortIsPermutation(filled);
    AnySiblingOrder(filled, f.keys);
    forall c | c in f.keys ensures Radix(c) && c.fullPrefix == f.fullPrefix + c.prefix && LaidOut(c) && Weighted(c) {
      var i :| 0 <= i < |filled| && filled[i] == c;
      assert FilledChild(t.keys[i], filled[i], f.fullPrefix);
    }
  }

  lemma FillOutWords(t: Trie, f: Trie, filled: seq<Trie>)
    requires Radix(t) && |filled| == |t.keys| && f.value == t.value && f.keys == SortByWeight(filled)
    requires forall i :: 0 <= i < |t.keys| ==> filled[i].prefix == t.keys[i].prefix
    requires forall i, w :: 0 <= i < |t.keys| ==> Lookup(filled[i], w) == Lookup(t.keys[i], w)
    ensures forall w :: Lookup(f, w) == Lookup(t, w)
  {
    assert Distinct(filled);
    SortIsPermutation(filled);
    AnySiblingOrder(filled, f.keys);
    forall w ensures Lookup(f, w) == Lookup(t, w) {
      var u := t.(keys := filled);
      LookupThroughChildren(t, u, w);
      SameSelectionSameWord(u, f, w);
    }
  }

  lemma SameSelectionSameWord(t: Trie, f: Trie, w: Text)
    requires f.value == t.value && SelectsSame(t.keys, f.keys, w)
    ensures Lookup(f, w) == Lookup(t, w)
  {
  }

  lemma FillOutBranching(t: Trie, f: Trie, filled: seq<Trie>)
    requires |filled| == |t.keys| && f.keys == SortByWeight(filled)
    requires forall i :: 0 <= i < |t.keys| ==> filled[i].value == t.keys[i].value && |filled[i].keys| == |t.keys[i].keys|
    requires forall i, least :: 0 <= i < |t.keys| && Branching(t.keys[i], least) ==> Branching(filled[i], least)
    ensures forall least :: Branching(t, least) ==> Branching(f, least)
  {
    SortIsPermutation(filled);
    forall c | c in f.keys ensures c in filled { assert c in multiset(f.keys); }
    forall least | Branching(t, least) ensures Branching(f, least) {
      BranchingOfChildren(t, f, filled, least);
    }
  }

  lemma BranchingOfChildren(t: Trie, f: Trie, filled: seq<Trie>, least: nat)
    requires |filled| == |t.keys| && Branching(t, least)
    requires forall c :: c in f.keys ==> c in filled
    requires forall i :: 0 <= i < |t.keys| ==> filled[i].value == t.keys[i].value && |filled[i].keys| == |t.keys[i].keys|
    requires forall i :: 0 <= i < |t.keys| && Branching(t.keys[i], least) ==> Branching(filled[i], least)
    ensures Branching(f, least)
  {
    forall c | c in f.keys ensures (c.value.Some? || |c.keys| >= least) && Branching(c, least) {
      var i :| 0 <= i < |filled| && filled[i] == c;
      assert t.keys[i] in t.keys;
    }
  }

  // ---------------------------------------------------------------- maxLength

  function MaxLength(t: Trie): (n: nat)
    ensures n >= |t.fullPrefix|
    decreases t, |t.keys| + 1
  {
    MaxLengthFirst(t, |t.keys|)
  }

  function MaxLengthFirst(t: Trie, n: nat): (m: nat)
    requires n <= |t.keys|
    ensures m >= |t.fullPrefix|
    decreases t, n
  {
    if n == 0 then |t.fullPrefix|
    else
      var m := MaxLengthFirst(t, n - 1);
      var l := MaxLength(t.keys[n - 1]);
      if l > m then l else m
  }

  lemma {:induction false} MaxLengthBounds(t: Trie, n: nat)
    requires n <= |t.keys|
    ensures forall i :: 0 <= i < n ==> MaxLength(t.keys[i]) <= MaxLengthFirst(t, n)
    ensures MaxLengthFirst(t, n) == |t.fullPrefix| || exists i :: 0 <= i < n && MaxLength(t.keys[i]) == MaxLengthFirst(t, n)
    decreases n
  {
    if n > 0 { MaxLengthBounds(t, n - 1); }
  }

  // ---------------------------------------------------------------- the whole pipeline

  /** The trie that is printed: built, coalesced below the root, laid out. */
  function Prepare(table: Table, weights: map<Text, real>): Trie {
    FillOut(CoalesceInPlace(Build(table)), [], weights)
  }

  /** The printed trie stores exactly the dictionary of the table, in radix form. */
  lemma PrepareIsDictionary(table: Table, weights: map<Text, real>)
    ensures var t := Prepare(table, weights);
      && Radix(t) && Branching(t, 2) && LaidOut(t) && Weighted(t) && t.fullPrefix == []
      && forall w :: Lookup(t, w) == Get(Dictionary(table), w)
  {
    var b := Build(table);
    BuildIsDictionary(table, []);
    BuildPrefix(table);
    CoalesceShape(b);
    var c := CoalesceInPlace(b);
    FillOutKeeps(c, [], weights);
    forall w ensures Lookup(Prepare(table, weights), w) == Get(Dictionary(table), w) {
      BuildIsDictionary(table, w);
      CoalesceLookup(b, w);
    }
  }

  lemma BuildPrefix(table: Table)
    ensures Build(table).prefix == []
  {
    if table != [] {
      var (k, v) := table[|table| - 1];
      InsertShape(Build(table[..|table| - 1]), k, v);
    }
  }
}

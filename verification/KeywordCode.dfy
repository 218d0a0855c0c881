/**
 The recogniser that is printed for a trie: its code as a tree, what the code does on a buffer, and the proof
 that it is a dictionary lookup on the identifier at the start of the buffer.
 */
module KeywordCode {
  import opened Prelude
  import opened KeywordTrie
  import opened KeywordCompare

  // ---------------------------------------------------------------- the generated code

  /** if (!isIdentPart(code[index])) { internalShift<shift>(); ident = name; return token; } */
  datatype Accept = Accept(index: nat, shift: nat, name: Text, token: Token)

  /** One arm of an else-if chain: compare `chars` with the buffer at `base`, then run `body`. */
  datatype Branch = Branch(base: nat, chars: Text, body: Code)

  /** An optional keyword exit followed by an else-if chain; control then leaves the block. */
  datatype Code = Code(accept: Option<Accept>, chain: seq<Branch>)

  /** The characters compared for a child, and where: three characters are widened to four by going back one. */
  function Comparison(t: Trie, child: Trie): (nat, Text)
    requires child.fullPrefix == t.fullPrefix + child.prefix
  {
    var baseIndex := |t.fullPrefix|;
    if baseIndex > 0 && |child.prefix| == 3 then
      (baseIndex - 1, [child.fullPrefix[baseIndex - 1]] + child.prefix)
    else
      (baseIndex, child.prefix)
  }

  /** The comparison covers the child's label; below the root no three characters are compared, but four from one place
      back, and only then is anything before the label compared again. */
  lemma ComparisonForm(t: Trie, child: Trie)
    requires child.fullPrefix == t.fullPrefix + child.prefix
    ensures var (base, chars) := Comparison(t, child);
      && chars == child.fullPrefix[base..]
      && (t.fullPrefix != [] && |child.prefix| == 3 ==> base + 1 == |t.fullPrefix| && |chars| == 4)
      && (t.fullPrefix == [] || |child.prefix| != 3 ==> base == |t.fullPrefix| && chars == child.prefix)
  {
    var n := |t.fullPrefix|;
    assert child.fullPrefix[n..] == child.prefix;
    if n > 0 {
      assert child.fullPrefix[n - 1..] == [child.fullPrefix[n - 1]] + child.fullPrefix[n..];
    }
  }

  function PrintSubTree(t: Trie): Code
    requires LaidOut(t)
    decreases t, |t.keys| + 1
  {
    var n := |t.fullPrefix|;
    var accept := if t.value.Some? then Some(Accept(n, n, t.fullPrefix, t.value.value)) else None;
    Code(accept, PrintFirst(t, |t.keys|))
  }

  /** The arms printed for the first n children. */
  function PrintFirst(t: Trie, n: nat): seq<Branch>
    requires LaidOut(t) && n <= |t.keys|
    decreases t, n
  {
    if n == 0 then []
    else
      var child := t.keys[n - 1];
      assert child in t.keys;
      var (base, chars) := Comparison(t, child);
      PrintFirst(t, n - 1) + [Branch(base, chars, PrintSubTree(child))]
  }

  /** maxTokenLength, the number of characters the lexer guarantees to be readable. */
  function MaxTokenLength(t: Trie): nat {
    MaxLength(t) + 1
  }

  // ---------------------------------------------------------------- running it

  /** No test on any path reads at n or beyond. */
  ghost predicate ReadsWithin(c: Code, n: nat) {
    && (c.accept.Some? ==> c.accept.value.index < n)
    && (forall b :: b in c.chain ==> b.base + |b.chars| <= n && ReadsWithin(b.body, n))
  }

  /** Every comparison has a macro, so the printed file compiles. */
  ghost predicate Compilable(c: Code) {
    forall b :: b in c.chain ==> HasMacro(|b.chars|) && Compilable(b.body)
  }

  datatype Lexer = Lexer(target: Target, width: Width, isIdentPart: Unit -> bool)

  datatype Outcome = Keyword(name: Text, token: Token, shift: nat) | FallThrough

  ghost function Run(c: Code, code: Text, lexer: Lexer): Outcome
    requires Fits(code, lexer.width) && ReadsWithin(c, |code|) && Compilable(c)
    decreases c, 1
  {
    if c.accept.Some? && !lexer.isIdentPart(code[c.accept.value.index]) then
      Keyword(c.accept.value.name, c.accept.value.token, c.accept.value.shift)
    else
      RunChain(c, 0, code, lexer)
  }

  /** The else-if chain from arm i on: the first arm that matches is run, and no other. */
  ghost function RunChain(c: Code, i: nat, code: Text, lexer: Lexer): Outcome
    requires Fits(code, lexer.width) && ReadsWithin(c, |code|) && Compilable(c) && i <= |c.chain|
    decreases c, 0, |c.chain| - i
  {
    if i == |c.chain| then FallThrough
    else
      var b := c.chain[i];
      assert b in c.chain;
      if Compare(lexer.target, lexer.width, code, b.base, b.chars) then Run(b.body, code, lexer)
      else RunChain(c, i + 1, code, lexer)
  }

  // ---------------------------------------------------------------- the read bound

  lemma {:induction false} PrintedArms(t: Trie, n: nat)
    requires LaidOut(t) && n <= |t.keys|
    ensures |PrintFirst(t, n)| == n
    ensures forall i :: 0 <= i < n ==>
        && t.keys[i] in t.keys
        && PrintFirst(t, n)[i] == Branch(Comparison(t, t.keys[i]).0, Comparison(t, t.keys[i]).1, PrintSubTree(t.keys[i]))
    decreases n
  {
    if n > 0 { PrintedArms(t, n - 1); }
  }

  /** No test of the printed code, on any path and for any trie, reads at maxTokenLength or beyond. */
  lemma {:induction false} ReadsBelowMaxTokenLength(t: Trie, n: nat)
    requires LaidOut(t) && n >= MaxTokenLength(t)
    ensures ReadsWithin(PrintSubTree(t), n)
    decreases t
  {
    PrintedArms(t, |t.keys|);
    MaxLengthBounds(t, |t.keys|);
    var c := PrintSubTree(t);
    forall b | b in c.chain ensures b.base + |b.chars| <= n && ReadsWithin(b.body, n) {
      var i :| 0 <= i < |t.keys| && c.chain[i] == b;
      ReadsBelowMaxTokenLength(t.keys[i], n);
    }
  }

  /** The bound is exact: a shorter guarantee would be read past. */
  lemma {:induction false} MaxTokenLengthIsLeast(t: Trie, n: nat)
    requires LaidOut(t) && Branching(t, 1) && (t.value.Some? || t.keys != [])
    ensures ReadsWithin(PrintSubTree(t), n) <==> n >= MaxTokenLength(t)
    decreases t
  {
    if n >= MaxTokenLength(t) {
      ReadsBelowMaxTokenLength(t, n);
    } else if ReadsWithin(PrintSubTree(t), n) {
      PrintedArms(t, |t.keys|);
      MaxLengthBounds(t, |t.keys|);
      var c := PrintSubTree(t);
      forall i | 0 <= i < |t.keys| ensures MaxLength(t.keys[i]) < n && |t.keys[i].fullPrefix| >= |t.fullPrefix| {
        assert c.chain[i] in c.chain;
        MaxTokenLengthIsLeast(t.keys[i], n);
      }
    }
  }

  /** The printed file compiles exactly when every label below the root has 1 to 8 characters. */
  ghost predicate ShortLabels(t: Trie) {
    forall c :: c in t.keys ==> HasMacro(|c.prefix|) && ShortLabels(c)
  }

  lemma {:induction false} CompilableIffShortLabels(t: Trie)
    requires LaidOut(t)
    ensures Compilable(PrintSubTree(t)) <==> ShortLabels(t)
    decreases t
  {
    PrintedArms(t, |t.keys|);
    var c := PrintSubTree(t);
    forall i | 0 <= i < |t.keys|
      ensures Compilable(c.chain[i].body) <==> ShortLabels(t.keys[i])
      ensures HasMacro(|c.chain[i].chars|) <==> HasMacro(|t.keys[i].prefix|)
    {
      CompilableIffShortLabels(t.keys[i]);
    }
    if Compilable(c) {
      forall k | k in t.keys ensures HasMacro(|k.prefix|) && ShortLabels(k) {
        var i :| 0 <= i < |t.keys| && t.keys[i] == k;
        assert c.chain[i] in c.chain;
      }
    }
  }

  // ---------------------------------------------------------------- what the code computes

  ghost predicate AsciiLabels(t: Trie) {
    forall c :: c in t.keys ==> Ascii(c.prefix) && AsciiLabels(c)
  }

  /** The first m characters form a word of t (below its full prefix) that ends where an identifier may end. */
  ghost predicate EndsWord(t: Trie, code: Text, m: int, lexer: Lexer) {
    && |t.fullPrefix| <= m < |code|
    && Lookup(t, code[|t.fullPrefix|..m]).Some?
    && !lexer.isIdentPart(code[m])
  }

  /** The outcome reports the shortest word of t that ends an identifier, if there is one. */
  ghost predicate IsShortest(t: Trie, code: Text, lexer: Lexer, r: Outcome) {
    match r
    case Keyword(name, token, shift) =>
      && EndsWord(t, code, shift, lexer)
      && name == code[..shift]
      && Lookup(t, code[|t.fullPrefix|..shift]) == Some(token)
      && forall m :: EndsWord(t, code, m, lexer) ==> shift <= m
    case FallThrough => forall m :: !EndsWord(t, code, m, lexer)
  }

  /** A test succeeds exactly on the child whose label comes next in the buffer. */
  lemma TestSelectsChild(t: Trie, child: Trie, code: Text, lexer: Lexer)
    requires child.fullPrefix == t.fullPrefix + child.prefix && child.prefix != [] && Ascii(child.prefix) && Ascii(t.fullPrefix)
    requires Fits(code, lexer.width) && t.fullPrefix <= code
    requires var (base, chars) := Comparison(t, child); base + |chars| <= |code| && HasMacro(|chars|)
    ensures var (base, chars) := Comparison(t, child);
      Compare(lexer.target, lexer.width, code, base, chars) <==> Starts(child, code[|t.fullPrefix|..])
  {
    var (base, chars) := Comparison(t, child);
    var n := |t.fullPrefix|;
    CompareIsPointwise(lexer.target, lexer.width, code, base, chars);
    assert code[n..][..|child.prefix|] == code[n..n + |child.prefix|];
    if base < n {
      assert child.fullPrefix[n - 1] == t.fullPrefix[n - 1] == code[n - 1];
      assert code[base..base + |chars|] == [code[n - 1]] + code[n..n + |child.prefix|];
      assert chars == [code[n - 1]] + child.prefix;
      if code[base..base + |chars|] == chars {
        assert code[n..n + |child.prefix|] == chars[1..] == child.prefix;
      }
    }
  }

  /** Arm k of a chain matches the buffer. */
  ghost predicate Matches(c: Code, k: nat, code: Text, lexer: Lexer)
    requires Fits(code, lexer.width) && ReadsWithin(c, |code|) && Compilable(c) && k < |c.chain|
  {
    assert c.chain[k] in c.chain;
    Compare(lexer.target, lexer.width, code, c.chain[k].base, c.chain[k].chars)
  }

  /** A chain runs its first matching arm. */
  lemma {:induction false} ChainRuns(c: Code, i: nat, j: nat, code: Text, lexer: Lexer)
    requires Fits(code, lexer.width) && ReadsWithin(c, |code|) && Compilable(c) && i <= j <= |c.chain|
    requires forall k :: i <= k < j ==> !Matches(c, k, code, lexer)
    requires j < |c.chain| ==> Matches(c, j, code, lexer)
    ensures j < |c.chain| ==> c.chain[j] in c.chain
    ensures RunChain(c, i, code, lexer) == if j < |c.chain| then Run(c.chain[j].body, code, lexer) else FallThrough
    decreases j - i
  {
    if i < j {
      assert !Matches(c, i, code, lexer);
      ChainRuns(c, i + 1, j, code, lexer);
    }
  }

  /** The chain printed for t runs the code of the child that IndexFor selects. */
  lemma ChainSelects(t: Trie, code: Text, lexer: Lexer)
    requires LaidOut(t) && Radix(t) && AsciiLabels(t) && Ascii(t.fullPrefix) && t.fullPrefix <= code
    requires var c := PrintSubTree(t); Fits(code, lexer.width) && ReadsWithin(c, |code|) && Compilable(c)
    ensures var c := PrintSubTree(t); var j := IndexFor(t.keys, code[|t.fullPrefix|..]);
      && |c.chain| == |t.keys|
      && (j < |t.keys| ==> t.keys[j] in t.keys && c.chain[j] in c.chain && c.chain[j].body == PrintSubTree(t.keys[j]))
      && RunChain(c, 0, code, lexer) == if j < |t.keys| then Run(c.chain[j].body, code, lexer) else FallThrough
  {
    PrintedArms(t, |t.keys|);
    var c := PrintSubTree(t);
    var j := IndexFor(t.keys, code[|t.fullPrefix|..]);
    forall k | 0 <= k < |t.keys| ensures Matches(c, k, code, lexer) <==> Starts(t.keys[k], code[|t.fullPrefix|..]) {
      assert c.chain[k] in c.chain;
      assert t.keys[k] in t.keys;
      TestSelectsChild(t, t.keys[k], code, lexer);
    }
    ChainRuns(c, 0, j, code, lexer);
  }

  /** Looking up the first m characters goes to the child selected by the whole rest of the buffer. */
  lemma LookupOfSelectedChild(t: Trie, code: Text, m: nat)
    requires LaidOut(t) && Radix(t) && t.fullPrefix <= code && |t.fullPrefix| < m < |code|
    ensures var j := IndexFor(t.keys, code[|t.fullPrefix|..]);
      Lookup(t, code[|t.fullPrefix|..m]) ==
      if j < |t.keys| && |t.keys[j].fullPrefix| <= m then Lookup(t.keys[j], code[|t.keys[j].fullPrefix|..m]) else None
  {
    var n := |t.fullPrefix|;
    var rest, w := code[n..], code[n..m];
    var j := IndexFor(t.keys, rest);
    assert w == rest[..m - n];
    SelectsOnPrefix(t.keys, rest, m - n);
    LookupGoesTo(t, w);
    hide Lookup, IndexFor, Radix, Starts;
    if j < |t.keys| {
      assert t.keys[j] in t.keys;
      if |t.keys[j].fullPrefix| <= m {
        assert w[|t.keys[j].prefix|..] == code[|t.keys[j].fullPrefix|..m];
      }
    }
  }

  lemma LookupGoesTo(t: Trie, w: Text)
    requires w != []
    ensures var j := IndexFor(t.keys, w);
      Lookup(t, w) == if j < |t.keys| then Lookup(t.keys[j], w[|t.keys[j].prefix|..]) else None
  {
  }

  lemma StartsOnPrefix(t: Trie, rest: Text, n: nat)
    requires n <= |rest|
    ensures Starts(t, rest[..n]) <==> Starts(t, rest) && |t.prefix| <= n
  {
    if |t.prefix| <= n { assert rest[..n][..|t.prefix|] == rest[..|t.prefix|]; }
  }

  lemma SelectsOnPrefix(keys: seq<Trie>, rest: Text, n: nat)
    requires Distinct(keys) && n <= |rest|
    ensures var j := IndexFor(keys, rest);
      IndexFor(keys, rest[..n]) == if j < |keys| && |keys[j].prefix| <= n then j else |keys|
  {
    var j := IndexFor(keys, rest);
    if j < |keys| && |keys[j].prefix| <= n {
      StartsOnPrefix(keys[j], rest, n);
      SelectsChild(keys, rest[..n], j);
    } else {
      forall l | 0 <= l < |keys| ensures !Starts(keys[l], rest[..n]) {
        StartsOnPrefix(keys[l], rest, n);
        if Starts(keys[l], rest) { SelectsChild(keys, rest, l); }
      }
      SelectsNone(keys, rest[..n]);
    }
  }

  /** Below the selected child the words are the same words with a longer prefix. */
  lemma WordsOfSelectedChild(t: Trie, code: Text, m: int, lexer: Lexer)
    requires LaidOut(t) && Radix(t) && t.fullPrefix <= code
    ensures var rest := code[|t.fullPrefix|..]; var j := IndexFor(t.keys, rest);
      EndsWord(t, code, m, lexer) && m > |t.fullPrefix| ==>
        j < |t.keys| && EndsWord(t.keys[j], code, m, lexer)
    ensures var rest := code[|t.fullPrefix|..]; var j := IndexFor(t.keys, rest);
      j < |t.keys| && EndsWord(t.keys[j], code, m, lexer) ==>
        && EndsWord(t, code, m, lexer) && m > |t.fullPrefix|
        && Lookup(t, code[|t.fullPrefix|..m]) == Lookup(t.keys[j], code[|t.keys[j].fullPrefix|..m])
  {
    var j := IndexFor(t.keys, code[|t.fullPrefix|..]);
    if |t.fullPrefix| < m < |code| { LookupOfSelectedChild(t, code, m); }
    if j < |t.keys| { assert t.keys[j] in t.keys; }
  }

  /** The outcome for the selected child is the outcome for the node when the node's own exit is not taken. */
  lemma ShortestOfChild(t: Trie, j: nat, code: Text, lexer: Lexer, r: Outcome)
    requires LaidOut(t) && Radix(t) && t.fullPrefix <= code && j == IndexFor(t.keys, code[|t.fullPrefix|..])
    requires !EndsWord(t, code, |t.fullPrefix|, lexer)
    requires if j < |t.keys| then IsShortest(t.keys[j], code, lexer, r) else r == FallThrough
    ensures IsShortest(t, code, lexer, r)
  {
    forall m
      ensures EndsWord(t, code, m, lexer) ==> j < |t.keys| && EndsWord(t.keys[j], code, m, lexer)
      ensures j < |t.keys| && EndsWord(t.keys[j], code, m, lexer) ==> EndsWord(t, code, m, lexer)
    {
      WordsOfSelectedChild(t, code, m, lexer);
    }
    if r.Keyword? { WordsOfSelectedChild(t, code, r.shift, lexer); }
  }

  lemma SelectedPrefix(t: Trie, j: nat, code: Text)
    requires LaidOut(t) && t.fullPrefix <= code && j == IndexFor(t.keys, code[|t.fullPrefix|..]) < |t.keys|
    requires AsciiLabels(t) && Ascii(t.fullPrefix)
    ensures t.keys[j].fullPrefix <= code && Ascii(t.keys[j].fullPrefix)
  {
    var n := |t.fullPrefix|;
    assert t.keys[j] in t.keys;
    assert code == code[..n] + code[n..];
    assert code[..n + |t.keys[j].prefix|] == t.fullPrefix + t.keys[j].prefix;
  }

  /** The code printed for t, entered once t's full prefix has matched, finds the shortest word of t. */
  lemma {:induction false} RunFindsShortest(t: Trie, code: Text, lexer: Lexer)
    requires LaidOut(t) && Radix(t) && AsciiLabels(t) && Ascii(t.fullPrefix) && t.fullPrefix <= code
    requires var c := PrintSubTree(t); Fits(code, lexer.width) && ReadsWithin(c, |code|) && Compilable(c)
    ensures IsShortest(t, code, lexer, Run(PrintSubTree(t), code, lexer))
    decreases t
  {
    var c := PrintSubTree(t);
    var n := |t.fullPrefix|;
    assert code[n..n] == [] && code[..n] == t.fullPrefix;
    if t.value.Some? && !lexer.isIdentPart(code[n]) {
      assert EndsWord(t, code, n, lexer);
    } else {
      ChainSelects(t, code, lexer);
      var j := IndexFor(t.keys, code[n..]);
      if j < |t.keys| {
        SelectedPrefix(t, j, code);
        RunFindsShortest(t.keys[j], code, lexer);
      }
      ShortestOfChild(t, j, code, lexer, Run(c, code, lexer));
    }
  }

  // ---------------------------------------------------------------- facts about words of a trie

  /** Every node that has a value or children has a word below it. */
  lemma {:induction false} WordBelow(t: Trie) returns (w: Text)
    requires Radix(t) && Branching(t, 1) && (t.value.Some? || t.keys != [])
    ensures Lookup(t, w).Some?
    decreases t
  {
    if t.value.Some? {
      w := [];
    } else {
      var c := t.keys[0];
      assert c in t.keys;
      var v := WordBelow(c);
      w := c.prefix + v;
      assert w[|c.prefix|..] == v;
      SelectsChild(t.keys, w, 0);
    }
  }

  /** Every label is part of a word, so ASCII words make ASCII labels. */
  lemma {:induction false} LabelsAreAscii(t: Trie)
    requires Radix(t) && Branching(t, 1)
    requires forall w :: Lookup(t, w).Some? ==> Ascii(w)
    ensures AsciiLabels(t)
    decreases t
  {
    forall i | 0 <= i < |t.keys| ensures Ascii(t.keys[i].prefix) && AsciiLabels(t.keys[i]) {
      var c := t.keys[i];
      assert c in t.keys;
      forall v | Lookup(c, v).Some? ensures Ascii(v) && Ascii(c.prefix) {
        var w := c.prefix + v;
        assert w[|c.prefix|..] == v;
        SelectsChild(t.keys, w, i);
        assert Ascii(w);
        assert forall k :: 0 <= k < |v| ==> v[k] == w[|c.prefix| + k];
        assert forall k :: 0 <= k < |c.prefix| ==> c.prefix[k] == w[k];
      }
      var v := WordBelow(c);
      LabelsAreAscii(c);
    }
  }

  /** Every label is part of a word, so short words make short labels. */
  lemma {:induction false} LabelsAreShort(t: Trie)
    requires Radix(t) && Branching(t, 1)
    requires forall w :: Lookup(t, w).Some? ==> |w| <= 8
    ensures ShortLabels(t)
    decreases t
  {
    forall i | 0 <= i < |t.keys| ensures HasMacro(|t.keys[i].prefix|) && ShortLabels(t.keys[i]) {
      var c := t.keys[i];
      assert c in t.keys;
      forall v | Lookup(c, v).Some? ensures |c.prefix| + |v| <= 8 {
        var w := c.prefix + v;
        assert w[|c.prefix|..] == v;
        SelectsChild(t.keys, w, i);
      }
      var v := WordBelow(c);
      LabelsAreShort(c);
    }
  }

  lemma {:induction false} WordsFitMaxLength(t: Trie, w: Text)
    requires LaidOut(t) && Lookup(t, w).Some?
    ensures |t.fullPrefix| + |w| <= MaxLength(t)
    decreases |w|
  {
    if w != [] {
      var i := IndexFor(t.keys, w);
      assert t.keys[i] in t.keys;
      WordsFitMaxLength(t.keys[i], w[|t.keys[i].prefix|..]);
      MaxLengthBounds(t, |t.keys|);
    }
  }

  // ---------------------------------------------------------------- the generated function

  /** The code of parseKeyword for a table. */
  function Generate(table: Table, weights: map<Text, real>): Code {
    PrepareIsDictionary(table, weights);
    PrintSubTree(Prepare(table, weights))
  }

  function TokenLength(table: Table, weights: map<Text, real>): nat {
    MaxTokenLength(Prepare(table, weights))
  }

  ghost predicate AsciiTable(table: Table) {
    forall w :: w in Dictionary(table) ==> Ascii(w)
  }

  /** What the lexer guarantees before it calls parseKeyword, and what the C++ compiler checks. */
  ghost predicate Callable(table: Table, weights: map<Text, real>, code: Text, lexer: Lexer) {
    Fits(code, lexer.width) && |code| >= TokenLength(table, weights) && Compilable(Generate(table, weights))
  }

  /** parseKeyword: FallThrough stands for `return IDENT`. */
  ghost function ParseKeyword(table: Table, weights: map<Text, real>, code: Text, lexer: Lexer): Outcome
    requires Callable(table, weights, code, lexer)
  {
    PrepareIsDictionary(table, weights);
    ReadsBelowMaxTokenLength(Prepare(table, weights), |code|);
    Run(Generate(table, weights), code, lexer)
  }

  /** The length of the maximal run of identifier-part characters at the start. */
  function IdentRun(code: Text, isIdentPart: Unit -> bool): (n: nat)
    ensures n <= |code|
    ensures forall i :: 0 <= i < n ==> isIdentPart(code[i])
    ensures n < |code| ==> !isIdentPart(code[n])
  {
    if code == [] || !isIdentPart(code[0]) then 0 else 1 + IdentRun(code[1..], isIdentPart)
  }

  /** The intended meaning: look the leading identifier up in a plain dictionary. */
  function LeadingIdentifier(d: map<Text, Token>, code: Text, isIdentPart: Unit -> bool): Outcome {
    var w := code[..IdentRun(code, isIdentPart)];
    if w in d then Keyword(w, d[w], |w|) else FallThrough
  }

  /** The characters before m are a keyword, and an identifier may end at m. */
  ghost predicate EndsKeyword(d: map<Text, Token>, code: Text, m: int, isIdentPart: Unit -> bool) {
    0 <= m < |code| && code[..m] in d && !isIdentPart(code[m])
  }

  /** The outcome reports the shortest keyword after which an identifier may end, if there is one. */
  ghost predicate IsShortestKeyword(d: map<Text, Token>, code: Text, isIdentPart: Unit -> bool, r: Outcome) {
    match r
    case Keyword(name, token, shift) =>
      && EndsKeyword(d, code, shift, isIdentPart) && name == code[..shift] && token == d[name]
      && forall m :: EndsKeyword(d, code, m, isIdentPart) ==> shift <= m
    case FallThrough => forall m :: !EndsKeyword(d, code, m, isIdentPart)
  }

  /** For every table, weighting, target and buffer: the generated code returns the shortest keyword after which
      an identifier may end, and IDENT if there is none. */
  lemma GeneratedCodeFindsShortestKeyword(table: Table, weights: map<Text, real>, code: Text, lexer: Lexer)
    requires AsciiTable(table) && Callable(table, weights, code, lexer)
    ensures IsShortestKeyword(Dictionary(table), code, lexer.isIdentPart, ParseKeyword(table, weights, code, lexer))
  {
    var t := Prepare(table, weights);
    PrepareIsDictionary(table, weights);
    BranchingWeakens(t);
    LabelsAreAscii(t);
    ReadsBelowMaxTokenLength(t, |code|);
    hide Prepare, Lookup, PrintSubTree, Run, LaidOut, Radix, Branching, AsciiLabels, ReadsWithin, Compilable, Fits;
    RunFindsShortest(t, code, lexer);
    ShortestIsKeyword(t, Dictionary(table), code, lexer, Run(PrintSubTree(t), code, lexer));
  }

  lemma ShortestIsKeyword(t: Trie, d: map<Text, Token>, code: Text, lexer: Lexer, r: Outcome)
    requires t.fullPrefix == [] && (forall w :: Lookup(t, w) == Get(d, w)) && IsShortest(t, code, lexer, r)
    ensures IsShortestKeyword(d, code, lexer.isIdentPart, r)
  {
    hide Lookup;
    forall m ensures EndsKeyword(d, code, m, lexer.isIdentPart) <==> EndsWord(t, code, m, lexer) {
      if 0 <= m < |code| { assert code[0..m] == code[..m]; }
    }
    if r.Keyword? { assert code[0..r.shift] == code[..r.shift]; }
  }

  lemma {:induction false} BranchingWeakens(t: Trie)
    requires Branching(t, 2)
    ensures Branching(t, 1)
    decreases t
  {
    forall c | c in t.keys ensures (c.value.Some? || |c.keys| >= 1) && Branching(c, 1) {
      BranchingWeakens(c);
    }
  }

  lemma KeywordsFit(table: Table, weights: map<Text, real>, w: Text)
    requires w in Dictionary(table)
    ensures |w| < TokenLength(table, weights)
  {
    PrepareIsDictionary(table, weights);
    WordsFitMaxLength(Prepare(table, weights), w);
  }

  /** The part of a keyword that an identifier scanner would see. */
  function Visible(w: Text, isIdentPart: Unit -> bool): Text {
    w[..IdentRun(w, isIdentPart)]
  }

  /** A caller can check this on the table: what is visible of a keyword is a keyword. For keywords made of
      identifier-part characters it holds trivially. */
  ghost predicate VisiblyClosed(d: map<Text, Token>, isIdentPart: Unit -> bool) {
    forall w :: w in d ==> Visible(w, isIdentPart) in d
  }

  lemma VisiblyClosedIsEnough(table: Table, weights: map<Text, real>, code: Text, lexer: Lexer)
    requires AsciiTable(table) && Callable(table, weights, code, lexer)
    requires VisiblyClosed(Dictionary(table), lexer.isIdentPart)
    ensures ParseKeyword(table, weights, code, lexer) == LeadingIdentifier(Dictionary(table), code, lexer.isIdentPart)
  {
    var d := Dictionary(table);
    var n := IdentRun(code, lexer.isIdentPart);
    GeneratedCodeFindsShortestKeyword(table, weights, code, lexer);
    forall m | EndsKeyword(d, code, m, lexer.isIdentPart)
      ensures n <= m && EndsKeyword(d, code, n, lexer.isIdentPart)
    {
      VisiblePart(code, m, lexer.isIdentPart);
      assert Visible(code[..m], lexer.isIdentPart) in d;
    }
    if code[..n] in d {
      KeywordsFit(table, weights, code[..n]);
      assert EndsKeyword(d, code, n, lexer.isIdentPart);
    }
  }

  lemma VisiblePart(code: Text, m: nat, isIdentPart: Unit -> bool)
    requires m < |code| && !isIdentPart(code[m])
    ensures IdentRun(code, isIdentPart) <= m
    ensures Visible(code[..m], isIdentPart) == code[..IdentRun(code, isIdentPart)]
  {
    var n, k := IdentRun(code, isIdentPart), IdentRun(code[..m], isIdentPart);
    assert k < m ==> code[..m][k] == code[k];
    assert n == k;
    assert code[..m][..k] == code[..k];
  }

  /** The buffer that shows why the condition is needed: the keyword, then the character that ends its visible part. */
  function Overshoot(w: Text, stop: Unit, n: nat): Text {
    w + seq(n, _ => stop)
  }

  lemma OvershootFails(table: Table, weights: map<Text, real>, w: Text, lexer: Lexer) returns (code: Text)
    requires AsciiTable(table) && Compilable(Generate(table, weights))
    requires w in Dictionary(table) && Visible(w, lexer.isIdentPart) !in Dictionary(table)
    ensures Callable(table, weights, code, lexer)
    ensures ParseKeyword(table, weights, code, lexer) != LeadingIdentifier(Dictionary(table), code, lexer.isIdentPart)
  {
    var d := Dictionary(table);
    var n := IdentRun(w, lexer.isIdentPart);
    assert w[..|w|] == w;
    code := Overshoot(w, w[n], TokenLength(table, weights));
    assert code[..|w|] == w && code[|w|] == w[n];
    assert Ascii(w);
    assert Fits(code, lexer.width);
    VisiblePart(code, |w|, lexer.isIdentPart);
    assert EndsKeyword(d, code, |w|, lexer.isIdentPart);
    GeneratedCodeFindsShortestKeyword(table, weights, code, lexer);
  }

  /** Compiler correctness, with the exact condition: the generated code is the dictionary lookup of the leading
      identifier on every buffer, target and width if and only if the visible part of every keyword is a keyword. */
  lemma GeneratedCodeIsLookup(table: Table, weights: map<Text, real>, isIdentPart: Unit -> bool)
    requires AsciiTable(table) && Compilable(Generate(table, weights))
    ensures VisiblyClosed(Dictionary(table), isIdentPart) <==>
      forall target, width, code :: Callable(table, weights, code, Lexer(target, width, isIdentPart)) ==>
        ParseKeyword(table, weights, code, Lexer(target, width, isIdentPart)) == LeadingIdentifier(Dictionary(table), code, isIdentPart)
  {
    var d := Dictionary(table);
    if VisiblyClosed(d, isIdentPart) {
      forall target, width, code | Callable(table, weights, code, Lexer(target, width, isIdentPart))
        ensures ParseKeyword(table, weights, code, Lexer(target, width, isIdentPart)) == LeadingIdentifier(d, code, isIdentPart)
      {
        VisiblyClosedIsEnough(table, weights, code, Lexer(target, width, isIdentPart));
      }
    } else {
      var w :| w in d && Visible(w, isIdentPart) !in d;
      var code := OvershootFails(table, weights, w, Lexer(X86_64, CHAR, isIdentPart));
    }
  }

  /** The assumption the keyword tables meet: keywords are made of identifier-part characters. */
  lemma IdentifierKeywordsAreFound(table: Table, weights: map<Text, real>, code: Text, lexer: Lexer)
    requires AsciiTable(table) && Callable(table, weights, code, lexer)
    requires forall w, i :: w in Dictionary(table) && 0 <= i < |w| ==> lexer.isIdentPart(w[i])
    ensures ParseKeyword(table, weights, code, lexer) == LeadingIdentifier(Dictionary(table), code, lexer.isIdentPart)
  {
    forall w | w in Dictionary(table) ensures Visible(w, lexer.isIdentPart) == w {
      assert IdentRun(w, lexer.isIdentPart) == |w|;
    }
    VisiblyClosedIsEnough(table, weights, code, lexer);
  }

  /** Keywords of at most eight characters always give code that compiles. */
  lemma ShortKeywordsCompile(table: Table, weights: map<Text, real>)
    requires forall w :: w in Dictionary(table) ==> |w| <= 8
    ensures Compilable(Generate(table, weights))
  {
    var t := Prepare(table, weights);
    PrepareIsDictionary(table, weights);
    BranchingWeakens(t);
    LabelsAreShort(t);
    CompilableIffShortLabels(t);
  }

  /** A table with one keyword, `a-`, of which a lexer whose only identifier character is `a` sees `a`: the generated
      code takes the keyword where the dictionary has nothing for the identifier. */
  lemma OvershootingTable(weights: map<Text, real>) returns (table: Table, lexer: Lexer, code: Text)
    ensures Dictionary(table) == map[[97, 45] := "T"] && !VisiblyClosed(Dictionary(table), lexer.isIdentPart)
    ensures AsciiTable(table) && Callable(table, weights, code, lexer)
    ensures ParseKeyword(table, weights, code, lexer) != LeadingIdentifier(Dictionary(table), code, lexer.isIdentPart)
  {
    var w: Text := [97, 45];
    table := [(w, "T")];
    lexer := Lexer(X86_64, CHAR, u => u == 97);
    assert table[..0] == [];
    assert Dictionary(table) == map[w := "T"];
    assert Visible(w, lexer.isIdentPart) == [97] by {
      assert w[1..][0] == 45;
    }
    ShortKeywordsCompile(table, weights);
    code := OvershootFails(table, weights, w, lexer);
  }
}

/**
 Combining modules into one: attribute groups are shared, metadata is merged, and the references in definitions and
 declarations are renumbered. What the combined module holds, and what its references mean.
 */
module CombinedModule {
  import opened Prelude
  import opened References
  import opened MetaDataMerge
  import opened MetaDataMeaning

  /** A line after the body of a definition. */
  datatype Line =
    | Declaration(text: string)
    | MetaDataLine(node: MetaData)
    | Attributes(number: nat, body: string)
    | Other

  datatype Module = Module(body: string, lines: seq<Line>)

  /** The state kept from module to module: hashes are lists of their keys in the order of insertion. */
  datatype Combined = Combined(attributes: seq<string>, metaData: Table, declarations: seq<string>, definitions: seq<string>)

  // ---------------------------------------------------------------- reading the lines

  function NodesOf(lines: seq<Line>): Nodes {
    if lines == [] then []
    else
      var last := lines[|lines| - 1];
      NodesOf(lines[..|lines| - 1]) + if last.MetaDataLine? then [last.node] else []
  }

  function DeclarationsOf(lines: seq<Line>): seq<string> {
    if lines == [] then []
    else
      var last := lines[|lines| - 1];
      DeclarationsOf(lines[..|lines| - 1]) + if last.Declaration? then [last.text] else []
  }

  /** The body of attribute group n of a module; a later line with the same number wins. */
  function AttributeBody(lines: seq<Line>, n: nat): Option<string> {
    if lines == [] then None
    else
      var last := lines[|lines| - 1];
      if last.Attributes? && last.number == n then Some(last.body) else AttributeBody(lines[..|lines| - 1], n)
  }

  /** Every line is read: the nodes and the declarations are those of the lines. */
  lemma {:induction false} LinesAreRead(lines: seq<Line>)
    ensures forall a :: a in NodesOf(lines) <==> MetaDataLine(a) in lines
    ensures forall d :: d in DeclarationsOf(lines) <==> Declaration(d) in lines
    decreases |lines|
  {
    if lines != [] {
      var init, last := lines[..|lines| - 1], lines[|lines| - 1];
      assert lines == init + [last];
      LinesAreRead(init);
    }
  }

  /** The body of a group is that of the last line with its number. */
  lemma {:induction false} LastAttributesWin(lines: seq<Line>, n: nat, body: string)
    ensures AttributeBody(lines, n) == Some(body) <==>
      exists k: nat :: k < |lines| && lines[k] == Attributes(n, body) && NoAttributesAfter(lines, n, k)
    decreases |lines|
  {
    if lines != [] {
      var init, last := lines[..|lines| - 1], lines[|lines| - 1];
      LastAttributesWin(init, n, body);
      if last.Attributes? && last.number == n {
        if last.body == body { assert lines[|init|] == Attributes(n, body) && NoAttributesAfter(lines, n, |init|); }
      } else {
        forall k: nat | k < |init| ensures NoAttributesAfter(lines, n, k) <==> NoAttributesAfter(init, n, k) {
          assert forall j :: k < j < |init| ==> lines[j] == init[j];
        }
      }
    }
  }

  ghost predicate NoAttributesAfter(lines: seq<Line>, n: nat, k: nat) {
    forall j :: k < j < |lines| ==> !(lines[j].Attributes? && lines[j].number == n)
  }

  function IndexFrom(s: seq<string>, x: string, i: nat): (p: nat)
    requires i <= |s|
    ensures i <= p <= |s| && (p < |s| ==> s[p] == x) && forall j :: i <= j < p ==> s[j] != x
    decreases |s| - i
  {
    if i == |s| || s[i] == x then i else IndexFrom(s, x, i + 1)
  }

  /** The table of attribute bodies, and the renumbering of a module's groups. */
  datatype Groups = Groups(attributes: seq<string>, renumber: map<nat, nat>)

  /** x, at the end unless it is there already. */
  function Entered(s: seq<string>, x: string): seq<string> {
    if x in s then s else s + [x]
  }

  function ReadAttributes(lines: seq<Line>, attributes: seq<string>): Groups {
    if lines == [] then Groups(attributes, map[])
    else
      var g := ReadAttributes(lines[..|lines| - 1], attributes);
      var last := lines[|lines| - 1];
      if !last.Attributes? then g
      else Groups(Entered(g.attributes, last.body), g.renumber[last.number := IndexFrom(g.attributes, last.body, 0)])
  }

  // ---------------------------------------------------------------- rewriting

  function RewriteText(ps: seq<Piece>, groups: Renumbering, metaData: Renumbering): Option<string> {
    match Rewrite(ps, groups, metaData)
    case None => None
    case Some(qs) => Some(RenderAll(qs))
  }

  /** The declarations, with those of a module entered in rewritten form. */
  function Declare(declarations: seq<string>, texts: seq<string>, groups: Renumbering, metaData: Renumbering): Option<seq<string>> {
    if texts == [] then Some(declarations)
    else
      match Declare(declarations, texts[..|texts| - 1], groups, metaData)
      case None => None
      case Some(ds) =>
        match RewriteText(Pieces(texts[|texts| - 1]), groups, metaData)
        case None => None
        case Some(text) => Some(Entered(ds, text))
  }

  /** One module added; None if its worklist is never emptied or a reference is undefined. */
  ghost function Add(c: Combined, m: Module): Option<Combined> {
    var g := ReadAttributes(m.lines, c.attributes);
    var s := ReadLines(NodesOf(m.lines), c.metaData);
    if !Resolvable(s) then None
    else
      var r := ResolveAll(s);
      match RewriteText(Pieces(m.body), g.renumber, r.renumber)
      case None => None
      case Some(text) =>
        match Declare(c.declarations, DeclarationsOf(m.lines), g.renumber, r.renumber)
        case None => None
        case Some(ds) => Some(Combined(g.attributes, r.table, ds, c.definitions + [text]))
  }

  ghost function Combine(ms: seq<Module>): Option<Combined> {
    if ms == [] then Some(Combined([], [], [], []))
    else
      match Combine(ms[..|ms| - 1])
      case None => None
      case Some(c) => Add(c, ms[|ms| - 1])
  }

  // ---------------------------------------------------------------- finite runs

  /** How far the program gets: to its end, to a reference that is undefined, or it is still busy with a worklist. */
  datatype Outcome = Finished(combined: Combined) | Raised | Busy

  /** One module added by a run that is broken off after `sweeps` passes over a worklist. */
  function AddWithin(c: Combined, m: Module, sweeps: nat): Outcome {
    var g := ReadAttributes(m.lines, c.attributes);
    var s := Sweeps(ReadLines(NodesOf(m.lines), c.metaData), sweeps);
    if s.pending != [] then Busy
    else
      match RewriteText(Pieces(m.body), g.renumber, s.renumber)
      case None => Raised
      case Some(text) =>
        match Declare(c.declarations, DeclarationsOf(m.lines), g.renumber, s.renumber)
        case None => Raised
        case Some(ds) => Finished(Combined(g.attributes, s.table, ds, c.definitions + [text]))
  }

  function CombineWithin(ms: seq<Module>, sweeps: nat): Outcome {
    if ms == [] then Finished(Combined([], [], [], []))
    else
      match CombineWithin(ms[..|ms| - 1], sweeps)
      case Finished(c) => AddWithin(c, ms[|ms| - 1], sweeps)
      case o => o
  }

  /** The program gets to a module whose worklist is never emptied. */
  ghost predicate GetsStuck(ms: seq<Module>) {
    ms != [] && var init, m := ms[..|ms| - 1], ms[|ms| - 1];
    || GetsStuck(init)
    || (Combine(init).Some? && !Resolvable(ReadLines(NodesOf(m.lines), Combine(init).value.metaData)))
  }

  ghost predicate NoLongerThan(ms: seq<Module>, n: nat) {
    forall m :: m in ms ==> |m.lines| <= n
  }

  lemma {:induction false} PendingAreNodes(nodes: seq<MetaData>, table: Table)
    ensures |ReadLines(nodes, table).pending| <= |nodes|
    decreases |nodes|
  {
    if nodes != [] { PendingAreNodes(nodes[..|nodes| - 1], table); }
  }

  lemma {:induction false} NodesAreLines(lines: seq<Line>)
    ensures |NodesOf(lines)| <= |lines|
    decreases |lines|
  {
    if lines != [] { NodesAreLines(lines[..|lines| - 1]); }
  }

  lemma AddWithinIsAdd(c: Combined, m: Module, sweeps: nat)
    ensures match AddWithin(c, m, sweeps)
      case Finished(r) => Add(c, m) == Some(r)
      case Raised => Add(c, m).None?
      case Busy => true
    ensures !AddWithin(c, m, sweeps).Busy? ==> Resolvable(ReadLines(NodesOf(m.lines), c.metaData))
    ensures AddWithin(c, m, sweeps).Busy? && |m.lines| <= sweeps ==> !Resolvable(ReadLines(NodesOf(m.lines), c.metaData))
  {
    var s := ReadLines(NodesOf(m.lines), c.metaData);
    PendingAreNodes(NodesOf(m.lines), c.metaData);
    NodesAreLines(m.lines);
    if |m.lines| <= sweeps { EnoughSweeps(s, sweeps); }
    if Sweeps(s, sweeps).pending == [] { SweepsAreResolveAll(s, sweeps); }
  }

  /** What a finite run shows: if it finishes or raises so does the program; if it is still busy after enough sweeps the
      program never ends. */
  lemma {:induction false} FiniteRun(ms: seq<Module>, sweeps: nat)
    ensures match CombineWithin(ms, sweeps)
      case Finished(c) => Combine(ms) == Some(c) && !GetsStuck(ms)
      case Raised => Combine(ms).None? && !GetsStuck(ms)
      case Busy => NoLongerThan(ms, sweeps) ==> Combine(ms).None? && GetsStuck(ms)
    decreases |ms|
  {
    hide AddWithin, Add, Resolvable, ReadLines, NodesOf;
    if ms != [] {
      var init, m := ms[..|ms| - 1], ms[|ms| - 1];
      assert ms == init + [m];
      FiniteRun(init, sweeps);
      if CombineWithin(init, sweeps).Finished? {
        AddWithinIsAdd(CombineWithin(init, sweeps).combined, m, sweeps);
        StuckHere(init, m);
      }
    }
  }

  lemma StuckHere(init: seq<Module>, m: Module)
    requires Combine(init).Some?
    ensures !Resolvable(ReadLines(NodesOf(m.lines), Combine(init).value.metaData)) ==> Combine(init + [m]).None?
  {
    assert (init + [m])[..|init|] == init;
  }

  function MostLines(ms: seq<Module>): (n: nat)
    ensures NoLongerThan(ms, n)
  {
    if ms == [] then 0
    else
      var n, k := MostLines(ms[..|ms| - 1]), |ms[|ms| - 1].lines|;
      assert ms == ms[..|ms| - 1] + [ms[|ms| - 1]];
      if k > n then k else n
  }

  /** Some finite run of the program ends like this. */
  ghost predicate Ends(ms: seq<Module>, outcome: Outcome) {
    exists n: nat :: CombineWithin(ms, n) == outcome
  }

  /** No finite run gets to an end. */
  ghost predicate RunsForEver(ms: seq<Module>) {
    forall n: nat :: CombineWithin(ms, n) == Busy
  }

  /** For all inputs: the program finishes with c, stops at an undefined reference, or runs for ever; and which of these
      it does is said by Combine and GetsStuck. */
  lemma OutcomesAreExact(ms: seq<Module>)
    ensures forall c :: Ends(ms, Finished(c)) <==> Combine(ms) == Some(c)
    ensures Ends(ms, Raised) <==> Combine(ms).None? && !GetsStuck(ms)
    ensures RunsForEver(ms) <==> GetsStuck(ms)
  {
    hide Combine, GetsStuck;
    var k := MostLines(ms);
    var o := CombineWithin(ms, k);
    FiniteRun(ms, k);
    assert o != Busy ==> Ends(ms, o);
    forall c | Ends(ms, Finished(c)) ensures Combine(ms) == Some(c) && !GetsStuck(ms) {
      var n: nat :| CombineWithin(ms, n) == Finished(c);
      FiniteRun(ms, n);
    }
    if Ends(ms, Raised) {
      var n: nat :| CombineWithin(ms, n) == Raised;
      FiniteRun(ms, n);
    }
    forall n: nat | GetsStuck(ms) ensures CombineWithin(ms, n) == Busy {
      FiniteRun(ms, n);
    }
  }

  // ---------------------------------------------------------------- attributes

  /** The renumbering sends exactly the groups the lines define, and each to an entry with its body. */
  ghost predicate GroupsMean(lines: seq<Line>, g: Groups) {
    forall n :: (n in g.renumber <==> AttributeBody(lines, n).Some?) &&
      (n in g.renumber ==> g.renumber[n] < |g.attributes| && AttributeBody(lines, n) == Some(g.attributes[g.renumber[n]]))
  }

  ghost predicate HasGroup(lines: seq<Line>, body: string) {
    exists l :: l in lines && l.Attributes? && l.body == body
  }

  /** No group is made up: what is added to the table is the body of some line. */
  lemma {:induction false} AttributesComeFromLines(lines: seq<Line>, attributes: seq<string>)
    ensures forall b :: b in ReadAttributes(lines, attributes).attributes ==> b in attributes || HasGroup(lines, b)
    decreases |lines|
  {
    if lines != [] {
      var init, last := lines[..|lines| - 1], lines[|lines| - 1];
      AttributesComeFromLines(init, attributes);
      assert lines == init + [last];
      forall b | HasGroup(init, b) ensures HasGroup(lines, b) {
        var l :| l in init && l.Attributes? && l.body == b;
        assert l in lines;
      }
      assert last.Attributes? ==> HasGroup(lines, last.body);
    }
  }

  lemma {:induction false} AttributesMean(lines: seq<Line>, attributes: seq<string>)
    requires NoDuplicates(attributes)
    ensures var g := ReadAttributes(lines, attributes);
      NoDuplicates(g.attributes) && attributes <= g.attributes && GroupsMean(lines, g)
  {
    if lines != [] {
      AttributesMean(lines[..|lines| - 1], attributes);
    }
  }

  // ---------------------------------------------------------------- the meaning of a reference

  /** q denotes in the combined tables what p denotes in its own module: text is itself, an attribute reference the body
      of its group, a metadata reference a node of its name. */
  ghost predicate SameMeaning(p: Piece, q: Piece, lines: seq<Line>, attributes: seq<string>, table: Table) {
    match p
    case Text(_) => q == p
    case Ref(kind, n) =>
      && q.Ref? && q.kind == kind
      && (kind == '#' ==> q.number < |attributes| && AttributeBody(lines, n) == Some(attributes[q.number]))
      && (kind == '!' ==> q.number < |table| && Named(NodesOf(lines), n, table[q.number].name))
  }

  ghost predicate SameMeanings(ps: seq<Piece>, qs: seq<Piece>, lines: seq<Line>, attributes: seq<string>, table: Table) {
    |ps| == |qs| && forall i :: 0 <= i < |ps| ==> SameMeaning(ps[i], qs[i], lines, attributes, table)
  }

  /** Every reference of a text is defined by the lines of its own module. */
  ghost predicate AllDefined(text: string, lines: seq<Line>) {
    forall i :: 0 <= i < |Pieces(text)| ==>
      match Pieces(text)[i]
      case Text(_) => true
      case Ref(kind, n) => if kind == '#' then AttributeBody(lines, n).Some? else Defines(NodesOf(lines), n)
  }

  /** A renumbering of a module's own references: exactly its groups and nodes, to entries of the same meaning. */
  ghost predicate Renumbers(lines: seq<Line>, g: Groups, metaData: map<nat, nat>, table: Table) {
    && GroupsMean(lines, g)
    && KeepsNames(NodesOf(lines), metaData, table)
    && (forall a :: a in NodesOf(lines) ==> a.index in metaData)
  }

  lemma {:induction false} PiecesHaveMarks(s: string, i: nat)
    requires i < |Pieces(s)| && Pieces(s)[i].Ref?
    ensures IsMark(Pieces(s)[i].kind)
    decreases |s|
  {
    var f := FirstMatch(s);
    if f < |s| {
      var j := DigitsEnd(s, f + 1);
      UnfoldPieces(s, f, j, s[..f], s[f], s[f + 1..j], s[j..]);
      hide Pieces, FirstMatch, DigitsEnd;
      if i >= 2 {
        assert Pieces(s)[i] == Pieces(s[j..])[i - 2];
        PiecesHaveMarks(s[j..], i - 2);
      }
    }
  }

  /** A text can be rewritten exactly when its module defines all its references; the rewritten text then splits into
      the same pieces, with the same meanings. */
  lemma RewritingPreservesMeaning(text: string, lines: seq<Line>, g: Groups, metaData: map<nat, nat>, table: Table)
    requires Renumbers(lines, g, metaData, table)
    ensures RewriteText(Pieces(text), g.renumber, metaData).Some? <==> AllDefined(text, lines)
    ensures match RewriteText(Pieces(text), g.renumber, metaData)
      case None => true
      case Some(r) => SameMeanings(Pieces(text), Pieces(r), lines, g.attributes, table)
  {
    var ps := Pieces(text);
    RewriteEach(ps, g.renumber, metaData);
    forall i | 0 <= i < |ps| && ps[i].Ref?
      ensures Defined(ps[i], g.renumber, metaData) <==>
              if ps[i].kind == '#' then AttributeBody(lines, ps[i].number).Some? else Defines(NodesOf(lines), ps[i].number)
    {
      PiecesHaveMarks(text, i);
      var n := ps[i].number;
      assert n in metaData ==> Named(NodesOf(lines), n, table[metaData[n]].name);
    }
    if Rewrite(ps, g.renumber, metaData).Some? {
      RewrittenTextSplits(text, g.renumber, metaData);
    }
  }

  lemma MeaningStays(p: Piece, q: Piece, lines: seq<Line>, attributes: seq<string>, table: Table,
                     attributes': seq<string>, table': Table)
    requires SameMeaning(p, q, lines, attributes, table) && attributes <= attributes' && table <= table'
    ensures SameMeaning(p, q, lines, attributes', table')
  {
  }

  lemma MeaningsStay(ps: seq<Piece>, qs: seq<Piece>, lines: seq<Line>, attributes: seq<string>, table: Table,
                     attributes': seq<string>, table': Table)
    requires SameMeanings(ps, qs, lines, attributes, table) && attributes <= attributes' && table <= table'
    ensures SameMeanings(ps, qs, lines, attributes', table')
  {
    forall i | 0 <= i < |ps| ensures SameMeaning(ps[i], qs[i], lines, attributes', table') {
      MeaningStays(ps[i], qs[i], lines, attributes, table, attributes', table');
    }
  }

  // ---------------------------------------------------------------- the combined module

  ghost function AllNodes(ms: seq<Module>): (r: seq<Nodes>)
    ensures |r| == |ms|
    ensures forall j :: 0 <= j < |ms| ==> r[j] == NodesOf(ms[j].lines)
  {
    if ms == [] then [] else AllNodes(ms[..|ms| - 1]) + [NodesOf(ms[|ms| - 1].lines)]
  }

  lemma AllNodesOfPrefix(ms: seq<Module>)
    requires ms != []
    ensures AllNodes(ms)[..|ms| - 1] == AllNodes(ms[..|ms| - 1])
  {
  }

  /** The declaration text d of module m is in the list, in rewritten form. */
  ghost predicate Rewritten(m: Module, d: string, e: string, attributes: seq<string>, table: Table) {
    d in DeclarationsOf(m.lines) && SameMeanings(Pieces(d), Pieces(e), m.lines, attributes, table)
  }

  ghost predicate Declared(m: Module, d: string, declarations: seq<string>, attributes: seq<string>, table: Table) {
    exists e :: e in declarations && Rewritten(m, d, e, attributes, table)
  }

  ghost predicate HasSource(ms: seq<Module>, e: string, attributes: seq<string>, table: Table) {
    exists m, d :: m in ms && Rewritten(m, d, e, attributes, table)
  }

  lemma {:induction false} DeclareMeans(ds: seq<string>, texts: seq<string>, m: Module, g: Groups,
                                        metaData: map<nat, nat>, table: Table)
    requires Renumbers(m.lines, g, metaData, table)
    requires forall d :: d in texts ==> d in DeclarationsOf(m.lines)
    requires NoDuplicates(ds)
    ensures Declare(ds, texts, g.renumber, metaData).Some? <==> forall d :: d in texts ==> AllDefined(d, m.lines)
    ensures match Declare(ds, texts, g.renumber, metaData)
      case None => true
      case Some(r) =>
        && NoDuplicates(r)
        && ds <= r
        && (forall d :: d in texts ==> Declared(m, d, r, g.attributes, table))
        && (forall e :: e in r ==> e in ds || HasSource([m], e, g.attributes, table))
    decreases |texts|
  {
    if texts != [] {
      var init, d := texts[..|texts| - 1], texts[|texts| - 1];
      assert texts == init + [d];
      DeclareMeans(ds, init, m, g, metaData, table);
      RewritingPreservesMeaning(d, m.lines, g, metaData, table);
      hide Renumbers, AllDefined, SameMeanings, RewriteText, Pieces, DeclarationsOf, Rewrite;
      match Declare(ds, init, g.renumber, metaData)
      case None =>
      case Some(r) =>
        match RewriteText(Pieces(d), g.renumber, metaData)
        case None =>
        case Some(text) =>
          EnteredMeans(r, text, init, d, m, g.attributes, table);
    }
  }

  lemma EnteredMeans(r: seq<string>, text: string, init: seq<string>, d: string, m: Module, attributes: seq<string>,
                     table: Table)
    requires Rewritten(m, d, text, attributes, table) && NoDuplicates(r)
    requires forall t :: t in init ==> Declared(m, t, r, attributes, table)
    ensures NoDuplicates(Entered(r, text)) && r <= Entered(r, text) && HasSource([m], text, attributes, table)
    ensures forall t :: t in init + [d] ==> Declared(m, t, Entered(r, text), attributes, table)
  {
    hide Rewritten;
    assert text in Entered(r, text);
    forall t | t in init + [d] ensures Declared(m, t, Entered(r, text), attributes, table) {
      if t in init {
        var e :| e in r && Rewritten(m, t, e, attributes, table);
        assert e in Entered(r, text);
      }
    }
  }

  /** What holds of the combined module: no attribute group and no declaration occurs twice, every definition and every
      declaration of a module is there with the meaning it had, and nothing else is. */
  ghost predicate CombinedInv(ms: seq<Module>, c: Combined) {
    && NoDuplicates(c.attributes)
    && NoDuplicates(c.declarations)
    && TableInv(c.metaData)
    && |c.definitions| == |ms|
    && (forall j :: 0 <= j < |ms| ==>
        SameMeanings(Pieces(ms[j].body), Pieces(c.definitions[j]), ms[j].lines, c.attributes, c.metaData))
    && (forall m, d :: m in ms && d in DeclarationsOf(m.lines) ==> Declared(m, d, c.declarations, c.attributes, c.metaData))
    && (forall e :: e in c.declarations ==> HasSource(ms, e, c.attributes, c.metaData))
    && (forall b :: b in c.attributes ==> InSomeModule(ms, b))
  }

  ghost predicate InSomeModule(ms: seq<Module>, body: string) {
    exists m :: m in ms && HasGroup(m.lines, body)
  }

  ghost predicate ModuleDefined(m: Module) {
    AllDefined(m.body, m.lines) && forall d :: d in DeclarationsOf(m.lines) ==> AllDefined(d, m.lines)
  }

  ghost predicate AllModulesDefined(ms: seq<Module>) {
    forall m :: m in ms ==> ModuleDefined(m)
  }

  /** The tables of a module once its worklist is empty. */
  lemma TablesMean(init: seq<Module>, m: Module, attributes: seq<string>, table: Table)
    requires NoDuplicates(attributes) && TableOf(AllNodes(init), table)
    requires Resolvable(ReadLines(NodesOf(m.lines), table))
    ensures var g := ReadAttributes(m.lines, attributes); var r := ResolveAll(ReadLines(NodesOf(m.lines), table));
      && Renumbers(m.lines, g, r.renumber, r.table)
      && NoDuplicates(g.attributes) && attributes <= g.attributes
      && TableOf(AllNodes(init + [m]), r.table) && table <= r.table
  {
    AttributesMean(m.lines, attributes);
    var nodes := NodesOf(m.lines);
    var all := AllNodes(init + [m]);
    AllNodesOfPrefix(init + [m]);
    assert (init + [m])[..|init|] == init;
    TableOfMore(AllNodes(init), all, table);
    assert nodes[..|nodes|] == nodes;
    ReadLinesKeeps(all, nodes, |nodes|, table);
    ResolveAllKeeps(all, nodes, ReadLines(nodes, table));
    AllMapped(all, nodes, ResolveAll(ReadLines(nodes, table)));
  }

  lemma AllMapped(ms: seq<Nodes>, nodes: Nodes, s: Resolution)
    requires ResolutionInv(ms, nodes, |nodes|, s) && s.pending == []
    ensures forall a :: a in nodes ==> a.index in s.renumber
  {
  }

  lemma DeclaredStays(m: Module, d: string, ds: seq<string>, attributes: seq<string>, table: Table,
                      ds': seq<string>, attributes': seq<string>, table': Table)
    requires Declared(m, d, ds, attributes, table) && ds <= ds' && attributes <= attributes' && table <= table'
    ensures Declared(m, d, ds', attributes', table')
  {
    var e :| e in ds && Rewritten(m, d, e, attributes, table);
    MeaningsStay(Pieces(d), Pieces(e), m.lines, attributes, table, attributes', table');
    assert e in ds' && Rewritten(m, d, e, attributes', table');
  }

  lemma SourceStays(ms: seq<Module>, e: string, attributes: seq<string>, table: Table,
                    ms': seq<Module>, attributes': seq<string>, table': Table)
    requires HasSource(ms, e, attributes, table) && attributes <= attributes' && table <= table'
    requires forall m :: m in ms ==> m in ms'
    ensures HasSource(ms', e, attributes', table')
  {
    var m, d :| m in ms && Rewritten(m, d, e, attributes, table);
    MeaningsStay(Pieces(d), Pieces(e), m.lines, attributes, table, attributes', table');
    assert m in ms' && Rewritten(m, d, e, attributes', table');
  }

  /** Adding a module that was read into the tables g and r keeps the invariant. */
  lemma InvGrows(ms: seq<Module>, c: Combined, m: Module, c': Combined)
    requires CombinedInv(ms, c)
    requires c.attributes <= c'.attributes && c.metaData <= c'.metaData && c.declarations <= c'.declarations
    requires NoDuplicates(c'.attributes) && NoDuplicates(c'.declarations) && TableInv(c'.metaData)
    requires |c'.definitions| == |ms| + 1 && c'.definitions[..|ms|] == c.definitions
    requires SameMeanings(Pieces(m.body), Pieces(c'.definitions[|ms|]), m.lines, c'.attributes, c'.metaData)
    requires forall d :: d in DeclarationsOf(m.lines) ==> Declared(m, d, c'.declarations, c'.attributes, c'.metaData)
    requires forall e :: e in c'.declarations ==> e in c.declarations || HasSource([m], e, c'.attributes, c'.metaData)
    requires forall b :: b in c'.attributes ==> b in c.attributes || HasGroup(m.lines, b)
    ensures CombinedInv(ms + [m], c')
  {
    var ms' := ms + [m];
    hide SameMeanings, Declared, HasSource, NoDuplicates, TableInv, Pieces, DeclarationsOf, HasGroup;
    forall j | 0 <= j < |ms'|
      ensures SameMeanings(Pieces(ms'[j].body), Pieces(c'.definitions[j]), ms'[j].lines, c'.attributes, c'.metaData)
    {
      if j < |ms| {
        assert c'.definitions[j] == c.definitions[j] && ms'[j] == ms[j];
        MeaningsStay(Pieces(ms[j].body), Pieces(c.definitions[j]), ms[j].lines, c.attributes, c.metaData,
                     c'.attributes, c'.metaData);
      }
    }
    forall n, d | n in ms' && d in DeclarationsOf(n.lines)
      ensures Declared(n, d, c'.declarations, c'.attributes, c'.metaData)
    {
      if n in ms {
        DeclaredStays(n, d, c.declarations, c.attributes, c.metaData, c'.declarations, c'.attributes, c'.metaData);
      }
    }
    forall e | e in c'.declarations ensures HasSource(ms', e, c'.attributes, c'.metaData) {
      if e in c.declarations {
        SourceStays(ms, e, c.attributes, c.metaData, ms', c'.attributes, c'.metaData);
      } else {
        SourceStays([m], e, c'.attributes, c'.metaData, ms', c'.attributes, c'.metaData);
      }
    }
    forall b | b in c'.attributes ensures InSomeModule(ms', b) {
      if b in c.attributes {
        var n :| n in ms && HasGroup(n.lines, b);
        assert n in ms';
      } else {
        assert m in ms';
      }
    }
  }

  lemma AddMeans(ms: seq<Module>, c: Combined, m: Module)
    requires CombinedInv(ms, c) && TableOf(AllNodes(ms), c.metaData)
    ensures Add(c, m).Some? <==> Resolvable(ReadLines(NodesOf(m.lines), c.metaData)) && ModuleDefined(m)
    ensures match Add(c, m)
      case None => true
      case Some(c') =>
        && CombinedInv(ms + [m], c') && TableOf(AllNodes(ms + [m]), c'.metaData)
        && c'.metaData == ResolveAll(ReadLines(NodesOf(m.lines), c.metaData)).table
  {
    var s := ReadLines(NodesOf(m.lines), c.metaData);
    if Resolvable(s) {
      var g, r := ReadAttributes(m.lines, c.attributes), ResolveAll(s);
      TablesMean(ms, m, c.attributes, c.metaData);
      AttributesComeFromLines(m.lines, c.attributes);
      RewritingPreservesMeaning(m.body, m.lines, g, r.renumber, r.table);
      DeclareMeans(c.declarations, DeclarationsOf(m.lines), m, g, r.renumber, r.table);
      assert TableInv(r.table);
      hide SameMeanings, Declared, HasSource, HasGroup, AllDefined, TableInv, TableOf, NoDuplicates, Renumbers, RewriteText,
           Pieces, DeclarationsOf, ReadAttributes, Declare, ReadLines;
      if Add(c, m).Some? {
        InvGrows(ms, c, m, Add(c, m).value);
      }
    }
  }

  /** The combiner finishes exactly when every worklist can be emptied and every module defines its own references. Then
      the combined module keeps every definition and declaration with its meaning, without duplicates, and its metadata
      is the merged table. */
  lemma {:induction false} CombiningPreservesMeaning(ms: seq<Module>)
    ensures Combine(ms).Some? <==> MergeAll(AllNodes(ms)).Some? && AllModulesDefined(ms)
    ensures match Combine(ms)
      case None => true
      case Some(c) =>
        && CombinedInv(ms, c)
        && TableOf(AllNodes(ms), c.metaData)
        && MergeAll(AllNodes(ms)).Some? && c.metaData == MergeAll(AllNodes(ms)).value.table
    decreases |ms|
  {
    hide *;
    if ms == [] {
      NothingCombined();
    } else {
      var init, m := ms[..|ms| - 1], ms[|ms| - 1];
      assert ms == init + [m];
      AllSplit(init, m);
      CombiningPreservesMeaning(init);
      CombineLast(ms, init, m);
      if Combine(init).Some? {
        AddMeans(init, Combine(init).value, m);
      }
    }
  }

  lemma AllSplit(init: seq<Module>, m: Module)
    ensures AllModulesDefined(init + [m]) <==> AllModulesDefined(init) && ModuleDefined(m)
  {
    hide ModuleDefined;
    assert forall n :: n in init ==> n in init + [m];
    assert m in init + [m];
  }

  lemma CombineLast(ms: seq<Module>, init: seq<Module>, m: Module)
    requires ms == init + [m]
    ensures Combine(ms) == if Combine(init).None? then None else Add(Combine(init).value, m)
    ensures MergeAll(AllNodes(init)).None? ==> MergeAll(AllNodes(ms)).None?
    ensures MergeAll(AllNodes(init)).Some? ==>
      var s := ReadLines(NodesOf(m.lines), MergeAll(AllNodes(init)).value.table);
      && (MergeAll(AllNodes(ms)).Some? <==> Resolvable(s))
      && (Resolvable(s) ==> MergeAll(AllNodes(ms)).value.table == ResolveAll(s).table)
  {
    hide Add, Resolvable, ReadLines;
    assert ms[..|ms| - 1] == init;
    AllNodesOfPrefix(ms);
  }

  lemma NothingCombined()
    ensures Combine([]) == Some(Combined([], [], [], [])) && AllModulesDefined([])
    ensures MergeAll(AllNodes([])) == Some(Merged([], []))
    ensures CombinedInv([], Combined([], [], [], [])) && TableOf(AllNodes([]), [])
  {
  }

  /** When names have one parent name throughout, a metadata reference in a combined definition denotes a node with the
      same whole chain of ancestor names as the reference it came from. */
  lemma ReferencesKeepAncestors(ms: seq<Module>, j: nat, i: nat)
    requires Combine(ms).Some? && j < |ms| && i < |Pieces(ms[j].body)|
    requires Pieces(ms[j].body)[i].Ref? && Pieces(ms[j].body)[i].kind == '!'
    requires Consistent(AllNodes(ms)) && AllWellFormed(ms)
    ensures var c := Combine(ms).value;
      && TableInv(c.metaData) && ParentsFirst(c.metaData)
      && |c.definitions| == |ms| && |Pieces(c.definitions[j])| == |Pieces(ms[j].body)|
      && var q := Pieces(c.definitions[j])[i];
      && q.Ref? && q.number < |c.metaData|
      && IsChain(NodesOf(ms[j].lines), Pieces(ms[j].body)[i].number, Chain(c.metaData, q.number))
  {
    hide *;
    WellFormedNodes(ms);
    CombiningPreservesMeaning(ms);
    var c := Combine(ms).value;
    var q := MetaDataReference(ms, c, j, i);
    HomomorphismIffConsistent(AllNodes(ms));
    var m := MergeAll(AllNodes(ms)).value;
    NamedEntry(AllNodes(ms), m, j, Pieces(ms[j].body)[i].number, q.number);
  }

  ghost predicate AllWellFormed(ms: seq<Module>) {
    forall m :: m in ms ==> WellFormed(NodesOf(m.lines))
  }

  lemma WellFormedNodes(ms: seq<Module>)
    requires AllWellFormed(ms)
    ensures AllNodesUnique(AllNodes(ms))
    ensures forall j :: 0 <= j < |ms| ==> WellFormed(AllNodes(ms)[j]) && UniqueIndices(AllNodes(ms)[j])
  {
  }

  lemma MetaDataReference(ms: seq<Module>, c: Combined, j: nat, i: nat) returns (q: Piece)
    requires CombinedInv(ms, c) && j < |ms| && i < |Pieces(ms[j].body)|
    requires Pieces(ms[j].body)[i].Ref? && Pieces(ms[j].body)[i].kind == '!'
    ensures TableInv(c.metaData) && |c.definitions| == |ms|
    ensures |Pieces(c.definitions[j])| == |Pieces(ms[j].body)| && q == Pieces(c.definitions[j])[i]
    ensures q.Ref? && q.number < |c.metaData|
    ensures Named(NodesOf(ms[j].lines), Pieces(ms[j].body)[i].number, c.metaData[q.number].name)
  {
    hide Pieces, NodesOf, Named;
    var ps, qs := Pieces(ms[j].body), Pieces(c.definitions[j]);
    assert SameMeanings(ps, qs, ms[j].lines, c.attributes, c.metaData);
    q := qs[i];
    assert SameMeaning(ps[i], q, ms[j].lines, c.attributes, c.metaData);
  }

  /** The entry that bears the name of a node of a module is the entry the node is sent to. */
  lemma NamedEntry(all: seq<Nodes>, m: Merged, j: nat, n: nat, e: nat)
    requires MergedInv(all, m) && KeepsChains(all, m) && j < |all| && UniqueIndices(all[j])
    requires e < |m.table| && Named(all[j], n, m.table[e].name)
    ensures IsChain(all[j], n, Chain(m.table, e))
  {
    var a: MetaData :| a in all[j] && a.index == n && a.name == m.table[e].name;
    assert MapsNodes(all[j], m.renumber[j], m.table);
    SameEntry(m.table, m.renumber[j][n], e);
  }
}

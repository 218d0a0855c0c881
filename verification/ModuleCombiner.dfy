/** The combiner itself: tables updated module by module, as the lines are read. */
module ModuleCombiner {
  import opened Prelude
  import opened References
  import opened MetaDataMerge
  import opened CombinedModule

  class Combiner {
    var attributes: seq<string>
    var attributesBackMap: map<string, nat>
    var metaData: Table
    var declarations: seq<string>
    var definitions: seq<string>

    ghost predicate Valid()
      reads this`attributes, this`attributesBackMap
    {
      && NoDuplicates(attributes)
      && (forall b :: b in attributesBackMap <==> b in attributes)
      && (forall b :: b in attributesBackMap ==>
          attributesBackMap[b] < |attributes| && attributes[attributesBackMap[b]] == b)
    }

    ghost function State(): Combined
      reads this
    {
      Combined(attributes, metaData, declarations, definitions)
    }

    constructor ()
      ensures Valid() && Combine([]) == Some(State())
    {
      attributes, attributesBackMap, metaData, declarations, definitions := [], map[], [], [], [];
    }

    /** A new number for an attribute group. */
    method EnterAttributes(body: string) returns (index: nat)
      requires Valid()
      modifies this`attributes, this`attributesBackMap
      ensures Valid()
      ensures attributes == Entered(old(attributes), body) && index == IndexFrom(old(attributes), body, 0)
    {
      if body in attributesBackMap {
        index := attributesBackMap[body];
      } else {
        index := |attributes|;
        attributesBackMap := attributesBackMap[body := index];
        attributes := attributes + [body];
      }
    }

    /** A node without parent gets an entry, unless its name has one; a node with a parent is put off. */
    method EnterNode(node: MetaData, waiting: seq<MetaData>, known: map<nat, nat>)
      returns (unresolved: seq<MetaData>, renumber: map<nat, nat>)
      modifies this`metaData
      ensures Resolution(unresolved, renumber, metaData) == ReadLine(Resolution(waiting, known, old(metaData)), node)
    {
      unresolved, renumber := waiting, known;
      if node.parent.None? {
        if !Known(metaData, node.name) {
          metaData := metaData + [MetaData(|metaData|, node.name, None)];
          assert metaData[|metaData| - 1].name == node.name;
        }
        renumber := renumber[node.index := Entry(metaData, node.name).index];
      } else {
        unresolved := unresolved + [node];
      }
    }

    /** The lines after a body: a new map for attributes, one for metadata, the nodes still to resolve and the
        declarations. */
    method ReadModule(lines: seq<Line>)
      returns (groups: map<nat, nat>, renumber: map<nat, nat>, unresolved: seq<MetaData>, texts: seq<string>)
      requires Valid()
      modifies this`attributes, this`attributesBackMap, this`metaData
      ensures Groups(attributes, groups) == ReadAttributes(lines, old(attributes))
      ensures Resolution(unresolved, renumber, metaData) == ReadLines(NodesOf(lines), old(metaData))
      ensures texts == DeclarationsOf(lines)
      ensures Valid()
    {
      groups, renumber, unresolved, texts := map[], map[], [], [];
      var i := 0;
      assert lines[..0] == [];
      ReadNothing(attributes, metaData);
      hide NodesOf, DeclarationsOf, ReadAttributes, ReadLines, ReadLine, Entered, IndexFrom, Valid;
      while i < |lines|
        invariant 0 <= i <= |lines|
        invariant Groups(attributes, groups) == ReadAttributes(lines[..i], old(attributes))
        invariant Resolution(unresolved, renumber, metaData) == ReadLines(NodesOf(lines[..i]), old(metaData))
        invariant texts == DeclarationsOf(lines[..i])
        invariant Valid()
      {
        ReadNext(lines, i, old(attributes));
        match lines[i] {
          case Declaration(text) =>
            texts := texts + [text];
          case MetaDataLine(node) =>
            ReadNode(NodesOf(lines[..i]), node, old(metaData));
            unresolved, renumber := EnterNode(node, unresolved, renumber);
          case Attributes(number, body) =>
            var index := EnterAttributes(body);
            groups := groups[number := index];
          case Other =>
        }
        i := i + 1;
      }
      assert lines[..i] == lines;
    }

    /** The inner loop over the worklist. */
    method SweepOnce(waiting: seq<MetaData>, known: map<nat, nat>) returns (pending: seq<MetaData>, renumber: map<nat, nat>)
      modifies this`metaData
      ensures Resolution(pending, renumber, metaData) == Sweep(Resolution(waiting, known, old(metaData)), 0)
    {
      hide Sweep, Position;
      pending, renumber := waiting, known;
      ghost var start := Resolution(waiting, known, metaData);
      var index := 0;
      while index < |pending|
        invariant 0 <= index <= |pending|
        invariant Sweep(Resolution(pending, renumber, metaData), index) == Sweep(start, 0)
        decreases |pending| - index
      {
        SweepNext(Resolution(pending, renumber, metaData), index);
        var node := pending[index];
        if Known(metaData, node.name) {
          renumber := renumber[node.index := Entry(metaData, node.name).index];
          pending := pending[index := pending[|pending| - 1]];
          pending := pending[..|pending| - 1];
        } else if node.parent.Some? && node.parent.value in renumber {
          renumber := renumber[node.index := |metaData|];
          metaData := metaData + [MetaData(|metaData|, node.name, Some(renumber[node.parent.value]))];
          pending := pending[index := pending[|pending| - 1]];
          pending := pending[..|pending| - 1];
        } else {
          index := index + 1;
        }
      }
      SweepDone(Resolution(pending, renumber, metaData));
    }

    /** The worklist: sweeps until it is empty. The number of sweeps is bounded, so that a run that never ends is seen
        through its finite beginnings. */
    method ResolveMetaData(unresolved: seq<MetaData>, known: map<nat, nat>, sweeps: nat)
      returns (pending: seq<MetaData>, renumber: map<nat, nat>)
      modifies this`metaData
      ensures Resolution(pending, renumber, metaData) == Sweeps(Resolution(unresolved, known, old(metaData)), sweeps)
    {
      hide Sweep;
      pending, renumber := unresolved, known;
      ghost var start := Resolution(unresolved, known, metaData);
      var swept := 0;
      while pending != [] && swept < sweeps
        invariant swept <= sweeps
        invariant Resolution(pending, renumber, metaData) == Sweeps(start, swept)
        decreases sweeps - swept
      {
        pending, renumber := SweepOnce(pending, renumber);
        swept := swept + 1;
      }
      if pending == [] { SweepsStay(start, swept, sweeps); }
    }

    /** A definition or declaration printed with its references resolved; not ok if one is undefined. */
    method Print(pieces: seq<Piece>, groups: map<nat, nat>, renumber: map<nat, nat>) returns (ok: bool, text: string)
      ensures RewriteText(pieces, groups, renumber) == if ok then Some(text) else None
    {
      text := "";
      var i := 0;
      assert pieces[0..] == pieces;
      PrependNothing(RewriteText(pieces, groups, renumber));
      while i < |pieces|
        invariant 0 <= i <= |pieces|
        invariant RewriteText(pieces, groups, renumber) == Prepend(text, RewriteText(pieces[i..], groups, renumber))
      {
        var thing := References.Resolve(pieces[i], groups, renumber);
        RewriteNext(pieces, i, groups, renumber);
        if thing.None? {
          return false, "";
        }
        PrependTwice(text, Render(thing.value), RewriteText(pieces[i + 1..], groups, renumber));
        text := text + Render(thing.value);
        i := i + 1;
      }
      ok := true;
      assert pieces[i..] == [] && text + "" == text;
    }

    /** The declarations of a module, entered unless they are there already. */
    method EnterDeclarations(texts: seq<string>, groups: map<nat, nat>, renumber: map<nat, nat>) returns (ok: bool)
      modifies this`declarations
      ensures ok ==> Declare(old(declarations), texts, groups, renumber) == Some(declarations)
      ensures !ok ==> Declare(old(declarations), texts, groups, renumber).None?
    {
      var i := 0;
      assert texts[..0] == [];
      while i < |texts|
        invariant 0 <= i <= |texts|
        invariant Declare(old(declarations), texts[..i], groups, renumber) == Some(declarations)
      {
        var pieces := Parse(texts[i]);
        var printed, text := Print(pieces, groups, renumber);
        assert texts[..i + 1][..i] == texts[..i];
        if !printed {
          DeclareFails(old(declarations), texts, i + 1, groups, renumber);
          return false;
        }
        if text !in declarations {
          declarations := declarations + [text];
        }
        i := i + 1;
      }
      assert texts[..i] == texts;
      ok := true;
    }

    /** One module; the state is left as it is when the run ends, and is of use only if it has finished. */
    method AddModule(m: Module, sweeps: nat) returns (outcome: Outcome)
      requires Valid()
      modifies this
      ensures AddWithin(old(State()), m, sweeps) == outcome
      ensures outcome.Finished? ==> Valid() && outcome.combined == State()
    {
      hide NodesOf, DeclarationsOf, ReadAttributes, ReadLines, RewriteText, Declare, Pieces, Sweeps;
      var body := Parse(m.body);
      var groups, known, unresolved, texts := ReadModule(m.lines);
      var pending, renumber := ResolveMetaData(unresolved, known, sweeps);
      if pending != [] {
        return Busy;
      }
      var ok, text := Print(body, groups, renumber);
      if !ok {
        return Raised;
      }
      definitions := definitions + [text];
      ok := EnterDeclarations(texts, groups, renumber);
      outcome := if ok then Finished(Combined(attributes, metaData, declarations, definitions)) else Raised;
    }

    /** The whole program, broken off when a worklist takes more than `sweeps` passes. */
    method CombineAll(ms: seq<Module>, sweeps: nat) returns (outcome: Outcome)
      requires Valid() && Combine([]) == Some(State())
      modifies this
      ensures outcome == CombineWithin(ms, sweeps)
      ensures outcome.Finished? ==> outcome.combined == State()
    {
      var i := 0;
      outcome := Finished(Combined(attributes, metaData, declarations, definitions));
      assert ms[..0] == [];
      while i < |ms|
        invariant 0 <= i <= |ms| && Valid()
        invariant outcome == Finished(State()) == CombineWithin(ms[..i], sweeps)
      {
        outcome := AddModule(ms[i], sweeps);
        assert ms[..i + 1][..i] == ms[..i];
        if !outcome.Finished? {
          CombineStops(ms, i + 1, sweeps);
          return;
        }
        i := i + 1;
      }
      assert ms[..i] == ms;
    }
  }

  lemma {:induction false} DeclareFails(ds: seq<string>, texts: seq<string>, n: nat, groups: Renumbering, renumber: Renumbering)
    requires n <= |texts| && Declare(ds, texts[..n], groups, renumber).None?
    ensures Declare(ds, texts, groups, renumber).None?
    decreases |texts| - n
  {
    if n == |texts| {
      assert texts[..n] == texts;
    } else {
      assert texts[..n + 1][..n] == texts[..n];
      DeclareFails(ds, texts, n + 1, groups, renumber);
    }
  }

  lemma {:induction false} CombineStops(ms: seq<Module>, n: nat, sweeps: nat)
    requires n <= |ms| && !CombineWithin(ms[..n], sweeps).Finished?
    ensures CombineWithin(ms, sweeps) == CombineWithin(ms[..n], sweeps)
    decreases |ms| - n
  {
    if n == |ms| {
      assert ms[..n] == ms;
    } else {
      assert ms[..n + 1][..n] == ms[..n];
      CombineStops(ms, n + 1, sweeps);
    }
  }

  lemma SweepNext(s: Resolution, i: nat)
    requires i < |s.pending|
    ensures Sweep(s, i) == if Direct(s.pending[i], s) then Sweep(MetaDataMerge.Resolve(s, i), i) else Sweep(s, i + 1)
  {
  }

  lemma SweepDone(s: Resolution)
    ensures Sweep(s, |s.pending|) == s
  {
  }

  lemma ReadNothing(attributes: seq<string>, table: Table)
    ensures NodesOf([]) == [] && DeclarationsOf([]) == [] && ReadAttributes([], attributes) == Groups(attributes, map[])
    ensures ReadLines([], table) == Resolution([], map[], table)
  {
  }

  lemma ReadNext(lines: seq<Line>, i: nat, attributes: seq<string>)
    requires i < |lines|
    ensures NodesOf(lines[..i + 1]) == NodesOf(lines[..i]) + if lines[i].MetaDataLine? then [lines[i].node] else []
    ensures !lines[i].MetaDataLine? ==> NodesOf(lines[..i + 1]) == NodesOf(lines[..i])
    ensures DeclarationsOf(lines[..i + 1]) == DeclarationsOf(lines[..i]) + if lines[i].Declaration? then [lines[i].text] else []
    ensures !lines[i].Declaration? ==> DeclarationsOf(lines[..i + 1]) == DeclarationsOf(lines[..i])
    ensures var g := ReadAttributes(lines[..i], attributes);
      ReadAttributes(lines[..i + 1], attributes) ==
      if !lines[i].Attributes? then g
      else Groups(Entered(g.attributes, lines[i].body),
                  g.renumber[lines[i].number := IndexFrom(g.attributes, lines[i].body, 0)])
  {
    assert lines[..i + 1][..i] == lines[..i];
  }

  lemma ReadNode(nodes: seq<MetaData>, node: MetaData, table: Table)
    ensures ReadLines(nodes + [node], table) == ReadLine(ReadLines(nodes, table), node)
  {
    assert (nodes + [node])[..|nodes|] == nodes;
  }

  function Prepend(text: string, rest: Option<string>): Option<string> {
    if rest.None? then None else Some(text + rest.value)
  }

  lemma PrependNothing(rest: Option<string>)
    ensures Prepend("", rest) == rest
  {
    if rest.Some? {
      assert "" + rest.value == rest.value;
    }
  }

  lemma PrependTwice(a: string, b: string, rest: Option<string>)
    ensures Prepend(a, Prepend(b, rest)) == Prepend(a + b, rest)
  {
    if rest.Some? {
      assert a + (b + rest.value) == a + b + rest.value;
    }
  }

  lemma RewriteNext(pieces: seq<Piece>, i: nat, groups: Renumbering, renumber: Renumbering)
    requires i < |pieces|
    ensures RewriteText(pieces[i..], groups, renumber) ==
      match References.Resolve(pieces[i], groups, renumber)
      case None => None
      case Some(p) => Prepend(Render(p), RewriteText(pieces[i + 1..], groups, renumber))
  {
    assert pieces[i..][1..] == pieces[i + 1..];
  }
}

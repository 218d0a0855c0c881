/**
 Attribute references `#n` and metadata references `!n` inside module text: splitting text at them, renumbering them
 and printing the result.
 */
module References {
  import opened Prelude

  datatype Piece = Text(text: string) | Ref(kind: char, number: nat)

  // ---------------------------------------------------------------- decimal numbers

  predicate IsDigit(c: char) {
    '0' <= c <= '9'
  }

  predicate AllDigits(s: string) {
    forall i :: 0 <= i < |s| ==> IsDigit(s[i])
  }

  /** to_i on a string of digits. */
  function ToInt(ds: string): nat
    requires AllDigits(ds)
  {
    if ds == [] then 0 else ToInt(ds[..|ds| - 1]) * 10 + (ds[|ds| - 1] as int - '0' as int)
  }

  function Digit(d: nat): char
    requires d < 10
  {
    ('0' as int + d) as char
  }

  /** to_s */
  function ToString(n: nat): (s: string)
    ensures s != [] && AllDigits(s)
  {
    if n < 10 then [Digit(n)] else ToString(n / 10) + [Digit(n % 10)]
  }

  predicate NoLeadingZero(ds: string)
    requires ds != []
  {
    |ds| == 1 || ds[0] != '0'
  }

  lemma {:induction false} ToIntToString(n: nat)
    ensures ToInt(ToString(n)) == n
    decreases n
  {
    var s := ToString(n);
    if n < 10 {
      assert s[..0] == [];
    } else {
      assert s[..|s| - 1] == ToString(n / 10);
      ToIntToString(n / 10);
    }
  }

  function Pow10(n: nat): nat {
    if n == 0 then 1 else 10 * Pow10(n - 1)
  }

  /** A digit alone is its place in the alphabet of digits... */
  lemma DigitsRead(k: nat)
    requires k < 10
    ensures IsDigit("0123456789"[k]) && ToInt(["0123456789"[k]]) == k
  {
    var c := "0123456789"[k];
    assert [c][..0] == [];
    assert ToInt([c]) == c as int - '0' as int;
  }

  /** ...and reading is positional: the digits in front count for a power of ten each. */
  lemma {:induction false} ReadingIsPositional(a: string, b: string)
    requires AllDigits(a) && AllDigits(b)
    ensures AllDigits(a + b) && ToInt(a + b) == ToInt(a) * Pow10(|b|) + ToInt(b)
    decreases |b|
  {
    if b == [] {
      assert a + b == a;
    } else {
      var init, d := b[..|b| - 1], b[|b| - 1];
      ReadingIsPositional(a, init);
      assert (a + b)[..|a + b| - 1] == a + init;
      TimesTen(ToInt(a), Pow10(|init|), ToInt(init));
    }
  }

  lemma TimesTen(x: nat, p: nat, y: nat)
    ensures (x * p + y) * 10 == x * (10 * p) + y * 10
  {
  }

  /** Printing a number gives the digits it was read from, unless they start with superfluous zeros: then it gives
      fewer. */
  lemma {:induction false} ToStringToInt(ds: string)
    requires AllDigits(ds) && ds != []
    ensures NoLeadingZero(ds) ==> ToString(ToInt(ds)) == ds
    ensures !NoLeadingZero(ds) ==> |ToString(ToInt(ds))| < |ds|
    ensures NoLeadingZero(ds) && |ds| > 1 ==> ToInt(ds) >= 10
    decreases |ds|
  {
    var init, d := ds[..|ds| - 1], ds[|ds| - 1];
    if |ds| == 1 {
      assert init == [];
    } else {
      ToStringToInt(init);
      var n := ToInt(init);
      assert |init| == 1 ==> ToInt(init) == init[0] as int - '0' as int by {
        if |init| == 1 { assert init[..0] == []; }
      }
      assert (n * 10 + (d as int - '0' as int)) / 10 == n && (n * 10 + (d as int - '0' as int)) % 10 == d as int - '0' as int;
      assert ds == init + [d];
    }
  }

  // ---------------------------------------------------------------- splitting

  predicate IsMark(c: char) {
    c == '!' || c == '#'
  }

  /** The pattern /[!#]([0-9]+)/ matches at i. */
  predicate MatchAt(s: string, i: nat) {
    i + 1 < |s| && IsMark(s[i]) && IsDigit(s[i + 1])
  }

  /** The leftmost match from i on, or |s|. */
  function MatchFrom(s: string, i: nat): (m: nat)
    requires i <= |s|
    ensures i <= m <= |s|
    ensures m < |s| ==> MatchAt(s, m)
    ensures forall j :: i <= j < m ==> !MatchAt(s, j)
    decreases |s| - i
  {
    if i == |s| || MatchAt(s, i) then i else MatchFrom(s, i + 1)
  }

  function FirstMatch(s: string): (m: nat)
    ensures m <= |s|
    ensures m < |s| ==> MatchAt(s, m)
    ensures forall j :: 0 <= j < m ==> !MatchAt(s, j)
  {
    MatchFrom(s, 0)
  }

  /** The end of the run of digits from i on. */
  function DigitsEnd(s: string, i: nat): (j: nat)
    requires i <= |s|
    ensures i <= j <= |s|
    ensures forall k :: i <= k < j ==> IsDigit(s[k])
    ensures j < |s| ==> !IsDigit(s[j])
    decreases |s| - i
  {
    if i < |s| && IsDigit(s[i]) then DigitsEnd(s, i + 1) else i
  }

  /** What `parse` returns. */
  function Pieces(s: string): seq<Piece>
    decreases |s|
  {
    if s == [] then []
    else
      var i := FirstMatch(s);
      if i == |s| then [Text(s), Text([])]
      else
        var j := DigitsEnd(s, i + 1);
        [Text(s[..i]), Ref(s[i], ToInt(s[i + 1..j]))] + Pieces(s[j..])
  }

  lemma UnfoldPieces(s: string, i: nat, j: nat, t: string, kind: char, ds: string, rest: string)
    requires i < j <= |s| && FirstMatch(s) == i && DigitsEnd(s, i + 1) == j
    requires s[..i] == t && s[i] == kind && s[i + 1..j] == ds && s[j..] == rest
    ensures AllDigits(ds) && Pieces(s) == [Text(t), Ref(kind, ToInt(ds))] + Pieces(rest)
  {
  }

  lemma PlainPieces(s: string)
    requires s != [] && FirstMatch(s) == |s|
    ensures Pieces(s) == [Text(s), Text([])]
  {
  }

  lemma AppendTwo(result: seq<Piece>, a: Piece, b: Piece, rest: seq<Piece>)
    ensures result + ([a, b] + rest) == result + [a] + [b] + rest
  {
  }

  method Parse(text: string) returns (result: seq<Piece>)
    ensures result == Pieces(text)
  {
    hide Pieces, ToInt;
    result := [];
    var s := text;
    while s != []
      invariant Pieces(text) == result + Pieces(s)
      decreases |s|
    {
      var i := FirstMatch(s);
      if i == |s| {
        PlainPieces(s);
        AppendTwo(result, Text(s), Text([]), []);
        result := result + [Text(s)];
        result := result + [Text([])];
        return;
      }
      var j := DigitsEnd(s, i + 1);
      UnfoldPieces(s, i, j, s[..i], s[i], s[i + 1..j], s[j..]);
      AppendTwo(result, Text(s[..i]), Ref(s[i], ToInt(s[i + 1..j])), Pieces(s[j..]));
      result := result + [Text(s[..i])];
      result := result + [Ref(s[i], ToInt(s[i + 1..j]))];
      s := s[j..];
    }
    NoPieces();
  }

  lemma NoPieces()
    ensures Pieces([]) == []
  {
  }

  /** The references of a piece list. */
  function RefsOf(ps: seq<Piece>): seq<Piece> {
    if ps == [] then [] else (if ps[0].Ref? then [ps[0]] else []) + RefsOf(ps[1..])
  }

  /** The references a reader finds from i on, looking at every place: an exclamation mark or a hash followed by a digit,
      and the number the digits from there on make. */
  function Found(s: string, i: nat): seq<Piece>
    requires i <= |s|
    decreases |s| - i
  {
    if |s| - i < 2 then []
    else
      var rest := Found(s, i + 1);
      if (s[i] == '!' || s[i] == '#') && s[i + 1] in "0123456789" then
        [Ref(s[i], ToInt(s[i + 1..DigitsEnd(s, i + 1)]))] + rest
      else rest
  }

  lemma DigitCharacters(c: char)
    ensures IsDigit(c) <==> c in "0123456789"
  {
    if IsDigit(c) {
      assert "0123456789"[c as int - '0' as int] == c;
    }
  }

  lemma FoundStep(s: string, i: nat)
    requires i < |s|
    ensures Found(s, i) ==
      (if MatchAt(s, i) then [Ref(s[i], ToInt(s[i + 1..DigitsEnd(s, i + 1)]))] else []) + Found(s, i + 1)
  {
    if i + 1 < |s| {
      DigitCharacters(s[i + 1]);
      assert [] + Found(s, i + 1) == Found(s, i + 1);
    }
  }

  /** Where nothing matches nothing is found. */
  lemma {:induction false} FoundSkips(s: string, i: nat, j: nat)
    requires i <= j <= |s| && forall k :: i <= k < j ==> !MatchAt(s, k)
    ensures Found(s, i) == Found(s, j)
    decreases j - i
  {
    if i < j {
      FoundStep(s, i);
      FoundSkips(s, i + 1, j);
    }
  }

  lemma {:induction false} DigitsEndShifts(s: string, n: nat, i: nat)
    requires n <= |s| && i <= |s| - n
    ensures DigitsEnd(s, n + i) == n + DigitsEnd(s[n..], i)
    decreases |s| - n - i
  {
    if i < |s| - n && IsDigit(s[n + i]) { DigitsEndShifts(s, n, i + 1); }
  }

  lemma {:induction false} FoundShifts(s: string, n: nat, i: nat)
    requires n <= |s| && i <= |s| - n
    ensures Found(s, n + i) == Found(s[n..], i)
    decreases |s| - n - i
  {
    if |s| - n - i >= 2 {
      FoundShifts(s, n, i + 1);
      DigitsEndShifts(s, n, i + 1);
      var j := DigitsEnd(s[n..], i + 1);
      assert s[n + i + 1..n + j] == s[n..][i + 1..j];
    }
  }

  /** Splitting finds every reference of a text, and no others, with its kind and number. */
  lemma {:induction false} AllReferencesFound(s: string)
    ensures RefsOf(Pieces(s)) == Found(s, 0)
    decreases |s|
  {
    if s != [] {
      var i := FirstMatch(s);
      FoundSkips(s, 0, i);
      if i == |s| {
        PlainPieces(s);
        assert Pieces(s)[1..] == [Text([])] && [Text([])][1..] == [];
      } else {
        var j := DigitsEnd(s, i + 1);
        AllReferencesFound(s[j..]);
        FoundFirst(s, i, j);
        RefsOfFirst(s, i, j);
      }
    }
  }

  lemma FoundFirst(s: string, i: nat, j: nat)
    requires MatchAt(s, i) && j == DigitsEnd(s, i + 1)
    ensures Found(s, i) == [Ref(s[i], ToInt(s[i + 1..j]))] + Found(s[j..], 0)
  {
    NoMatchInDigits(s, i + 1, j);
    hide Found, ToInt, DigitsEnd, MatchAt;
    FoundStep(s, i);
    FoundSkips(s, i + 1, j);
    FoundShifts(s, j, 0);
  }

  lemma RefsOfFirst(s: string, i: nat, j: nat)
    requires i < |s| && i == FirstMatch(s) && j == DigitsEnd(s, i + 1)
    ensures RefsOf(Pieces(s)) == [Ref(s[i], ToInt(s[i + 1..j]))] + RefsOf(Pieces(s[j..]))
  {
    hide Pieces, RefsOf, ToInt;
    UnfoldPieces(s, i, j, s[..i], s[i], s[i + 1..j], s[j..]);
    ReferencesStep(Text(s[..i]), Ref(s[i], ToInt(s[i + 1..j])), Pieces(s[j..]));
  }

  lemma NoMatchInDigits(s: string, i: nat, j: nat)
    requires i <= j <= |s| && forall k :: i <= k < j ==> IsDigit(s[k])
    ensures forall k :: i <= k < j ==> !MatchAt(s, k)
  {
  }

  lemma ReferencesStep(a: Piece, b: Piece, rest: seq<Piece>)
    requires a.Text? && b.Ref?
    ensures RefsOf([a, b] + rest) == [b] + RefsOf(rest)
  {
    assert ([a, b] + rest)[1..] == [b] + rest;
    assert ([b] + rest)[1..] == rest;
  }

  // ---------------------------------------------------------------- printing

  function Render(p: Piece): string {
    match p
    case Text(t) => t
    case Ref(kind, number) => [kind] + ToString(number)
  }

  function RenderAll(ps: seq<Piece>): string {
    if ps == [] then [] else Render(ps[0]) + RenderAll(ps[1..])
  }

  /** No reference in s is written with superfluous zeros. */
  ghost predicate NoPaddedReference(s: string) {
    forall i: nat :: MatchAt(s, i) && s[i + 1] == '0' ==> i + 2 == |s| || !IsDigit(s[i + 2])
  }

  /** Splitting and printing gives the text back exactly when no reference has leading zeros. */
  lemma {:induction false} RenderPieces(s: string)
    ensures RenderAll(Pieces(s)) == s <==> NoPaddedReference(s)
    ensures |RenderAll(Pieces(s))| <= |s|
    ensures |RenderAll(Pieces(s))| == |s| ==> NoPaddedReference(s)
    decreases |s|
  {
    if s != [] {
      var i := FirstMatch(s);
      if i == |s| {
        RenderPlain(s);
      } else {
        RenderPieces(s[DigitsEnd(s, i + 1)..]);
        RenderReferencePieces(s, i, DigitsEnd(s, i + 1));
      }
    }
  }

  lemma RenderReferencePieces(s: string, i: nat, j: nat)
    requires i < |s| && i == FirstMatch(s) && j == DigitsEnd(s, i + 1)
    requires var rest := s[j..]; var r := RenderAll(Pieces(rest));
      (r == rest <==> NoPaddedReference(rest)) && |r| <= |rest| && (|r| == |rest| ==> NoPaddedReference(rest))
    ensures var r := RenderAll(Pieces(s));
      (r == s <==> NoPaddedReference(s)) && |r| <= |s| && (|r| == |s| ==> NoPaddedReference(s))
  {
    hide Pieces, RenderAll, NoPaddedReference, ToInt, ToString;
    var ds, rest := s[i + 1..j], s[j..];
    RenderReference(s, i, j, ds, rest);
    PaddingSplits(s, i, j);
    ToStringToInt(ds);
    JoinSlices(s, i, j);
    hide *;
    RenderingCompares(s[..i], s[i], ds, rest, ToString(ToInt(ds)), RenderAll(Pieces(rest)), s, RenderAll(Pieces(s)),
                      NoLeadingZero(ds), NoPaddedReference(rest));
  }

  lemma RenderingCompares(t: string, c: char, ds: string, rest: string, es: string, tail: string, s: string, r: string,
                          plain: bool, plainRest: bool)
    requires s == t + ([c] + (ds + rest)) && r == t + ([c] + (es + tail))
    requires |tail| <= |rest| && (tail == rest <==> plainRest) && (|tail| == |rest| ==> plainRest)
    requires if plain then es == ds else |es| < |ds|
    ensures |r| <= |s| && (r == s <==> plain && plainRest) && (|r| == |s| ==> plain && plainRest)
  {
    Cancel(t, c, ds, rest, es, tail, s, r);
  }

  lemma JoinSlices(s: string, i: nat, j: nat)
    requires i < j <= |s|
    ensures s == s[..i] + ([s[i]] + (s[i + 1..j] + s[j..]))
  {
  }

  /** A text that is changed: its reference is written with a leading zero. */
  lemma PaddedReferenceIsChanged()
    ensures Pieces("#01") == [Text(""), Ref('#', 1)] && RenderAll(Pieces("#01")) == "#1"
    ensures !NoPaddedReference("#01")
  {
    var s := "#01";
    assert MatchAt(s, 0) && FirstMatch(s) == 0;
    assert IsDigit(s[1]) && IsDigit(s[2]) && DigitsEnd(s, 1) == 3;
    assert s[1..3] == "01" && "01"[..1] == "0" && "0"[..0] == "";
    assert ToInt("0") == 0 && ToInt("01") == 1;
    UnfoldPieces(s, 0, 3, "", '#', "01", "");
    RenderFirst(Text(""), Ref('#', 1), []);
    assert ToString(1) == ['1'];
  }

  lemma RenderPlain(s: string)
    requires FirstMatch(s) == |s|
    ensures RenderAll(Pieces(s)) == s && NoPaddedReference(s)
  {
    if s != [] {
      assert RenderAll([Text(s), Text([])]) == s + ([] + RenderAll([])) by {
        assert [Text(s), Text([])][1..] == [Text([])];
        assert [Text([])][1..] == [];
      }
    }
  }

  lemma RenderReference(s: string, i: nat, j: nat, ds: string, rest: string)
    requires i < |s| && i == FirstMatch(s) && j == DigitsEnd(s, i + 1) && ds == s[i + 1..j] && rest == s[j..]
    ensures RenderAll(Pieces(s)) == s[..i] + ([s[i]] + (ToString(ToInt(ds)) + RenderAll(Pieces(rest))))
  {
    RenderFirst(Text(s[..i]), Ref(s[i], ToInt(ds)), Pieces(rest));
    assert Pieces(s) == [Text(s[..i]), Ref(s[i], ToInt(ds))] + Pieces(rest);
    Associate(s[..i], [s[i]], ToString(ToInt(ds)), RenderAll(Pieces(rest)));
  }

  lemma Associate(a: string, b: string, c: string, d: string)
    ensures a + ((b + c) + d) == a + (b + (c + d))
  {
  }

  lemma Cancel(t: string, c: char, ds: string, rest: string, es: string, tail: string, s: string, r: string)
    requires s == t + ([c] + (ds + rest)) && r == t + ([c] + (es + tail))
    requires |es| <= |ds| && |tail| <= |rest|
    ensures |r| <= |s| && (r == s <==> es == ds && tail == rest)
    ensures |r| == |s| ==> |es| == |ds| && |tail| == |rest|
  {
    if r == s {
      var n := |t| + 1;
      assert s[n..][..|ds|] == ds && s[n..][|ds|..] == rest;
      assert r[n..][..|es|] == es && r[n..][|es|..] == tail;
    }
  }

  lemma RenderFirst(a: Piece, b: Piece, rest: seq<Piece>)
    ensures RenderAll([a, b] + rest) == Render(a) + (Render(b) + RenderAll(rest))
  {
    assert ([a, b] + rest)[1..] == [b] + rest;
    assert ([b] + rest)[1..] == rest;
  }

  lemma PaddingSplits(s: string, i: nat, j: nat)
    requires i < |s| && i == FirstMatch(s) && j == DigitsEnd(s, i + 1)
    ensures NoPaddedReference(s) <==> NoLeadingZero(s[i + 1..j]) && NoPaddedReference(s[j..])
  {
    var ds, rest := s[i + 1..j], s[j..];
    assert j >= i + 2;
    assert NoLeadingZero(ds) <==> !(s[i + 1] == '0' && i + 2 < j);
    forall k: nat ensures MatchAt(s, k) <==> k == i || (k >= j && MatchAt(rest, k - j)) {
      if i < k < j { assert IsDigit(s[k]); }
    }
    if NoPaddedReference(s) {
      assert MatchAt(s, i);
      forall k: nat | MatchAt(rest, k) && rest[k + 1] == '0' ensures k + 2 == |rest| || !IsDigit(rest[k + 2]) {
        assert MatchAt(s, j + k);
      }
    }
    if NoLeadingZero(ds) && NoPaddedReference(rest) {
      forall k: nat | MatchAt(s, k) && s[k + 1] == '0' ensures k + 2 == |s| || !IsDigit(s[k + 2]) {
        if k != i { assert MatchAt(rest, k - j); }
      }
    }
  }

  // ---------------------------------------------------------------- renumbering

  /** The form of a list of pieces that comes from a text. */
  ghost predicate Canonical(ps: seq<Piece>)
    decreases |ps|
  {
    ps == [] ||
    (|ps| >= 2 && ps[0].Text? && (forall i: nat :: !MatchAt(ps[0].text, i)) &&
     match ps[1]
     case Text(t) => |ps| == 2 && t == [] && ps[0].text != []
     case Ref(kind, _) => IsMark(kind) && Canonical(ps[2..]) && !StartsWithDigit(ps[2..]))
  }

  predicate StartsWithDigit(ps: seq<Piece>) {
    ps != [] && ps[0].Text? && ps[0].text != [] && IsDigit(ps[0].text[0])
  }

  lemma {:induction false} PiecesAreCanonical(s: string)
    ensures Canonical(Pieces(s))
    ensures StartsWithDigit(Pieces(s)) ==> s != [] && IsDigit(s[0])
    decreases |s|
  {
    if s != [] {
      var i := FirstMatch(s);
      if i < |s| {
        var j := DigitsEnd(s, i + 1);
        PiecesAreCanonical(s[j..]);
        assert Pieces(s)[2..] == Pieces(s[j..]);
        forall k: nat ensures !MatchAt(s[..i], k) {
          assert MatchAt(s[..i], k) ==> MatchAt(s, k);
        }
      }
    }
  }

  lemma RenderStartsWithDigit(ps: seq<Piece>)
    requires Canonical(ps) && !StartsWithDigit(ps)
    ensures RenderAll(ps) != [] ==> !IsDigit(RenderAll(ps)[0])
  {
    if ps != [] {
      RenderFirst(ps[0], ps[1], ps[2..]);
      assert ps == [ps[0], ps[1]] + ps[2..];
    }
  }

  /** Printing canonical pieces and splitting again gives the same pieces. */
  lemma {:induction false} PiecesOfRender(ps: seq<Piece>)
    requires Canonical(ps)
    ensures Pieces(RenderAll(ps)) == ps
    decreases |ps|
  {
    if ps != [] {
      assert ps == [ps[0], ps[1]] + ps[2..];
      RenderFirst(ps[0], ps[1], ps[2..]);
      var t := ps[0].text;
      match ps[1]
      case Text(_) =>
        assert ps[2..] == [] && RenderAll(ps) == t;
        PiecesOfPlain(t);
      case Ref(kind, number) =>
        var rest := RenderAll(ps[2..]);
        RenderStartsWithDigit(ps[2..]);
        PiecesOfRender(ps[2..]);
        PiecesOfReference(t, kind, number, rest);
    }
  }

  lemma PiecesOfPlain(t: string)
    requires t != [] && forall i: nat :: !MatchAt(t, i)
    ensures Pieces(t) == [Text(t), Text([])]
  {
    assert FirstMatch(t) == |t|;
  }

  lemma PiecesOfReference(t: string, kind: char, number: nat, rest: string)
    requires (forall i: nat :: !MatchAt(t, i)) && IsMark(kind) && (rest != [] ==> !IsDigit(rest[0]))
    ensures Pieces(t + ([kind] + ToString(number) + rest)) == [Text(t), Ref(kind, number)] + Pieces(rest)
  {
    hide *;
    var ds := ToString(number);
    var s := t + ([kind] + ds + rest);
    Slices(t, kind, ds, rest);
    FirstMatchOf(t, kind, ds, rest, s);
    DigitsEndOf(t, kind, ds, rest, s);
    ToIntToString(number);
    UnfoldPieces(s, |t|, |t| + 1 + |ds|, t, kind, ds, rest);
  }

  lemma Slices(t: string, kind: char, ds: string, rest: string)
    ensures var s := t + ([kind] + ds + rest); var j := |t| + 1 + |ds|;
      |s| == j + |rest| && s[..|t|] == t && s[|t|] == kind && s[|t| + 1..j] == ds && s[j..] == rest
  {
  }

  lemma FirstMatchOf(t: string, kind: char, ds: string, rest: string, s: string)
    requires s == t + ([kind] + ds + rest)
    requires (forall i: nat :: !MatchAt(t, i)) && IsMark(kind) && ds != [] && AllDigits(ds)
    ensures FirstMatch(s) == |t|
  {
    assert MatchAt(s, |t|) by {
      Slices(t, kind, ds, rest);
      assert s[|t| + 1] == ds[0];
    }
    forall i | 0 <= i < |t| ensures !MatchAt(s, i) {
      if i + 1 < |t| {
        assert !MatchAt(t, i) && s[i] == t[i] && s[i + 1] == t[i + 1];
      } else {
        assert s[i + 1] == kind;
      }
    }
  }

  lemma DigitsEndOf(t: string, kind: char, ds: string, rest: string, s: string)
    requires s == t + ([kind] + ds + rest) && AllDigits(ds)
    requires rest != [] ==> !IsDigit(rest[0])
    ensures DigitsEnd(s, |t| + 1) == |t| + 1 + |ds|
  {
    Slices(t, kind, ds, rest);
    var n, j := |t| + 1, |t| + 1 + |ds|;
    forall k | n <= k < j ensures IsDigit(s[k]) { assert s[k] == s[n..j][k - n] == ds[k - n]; }
    assert j < |s| ==> s[j] == s[j..][0] == rest[0];
  }

  type Renumbering = map<nat, nat>

  /** Reference#resolve: the new number of a reference, or an error if the module does not define it. */
  function Resolve(p: Piece, hashTable: Renumbering, bangTable: Renumbering): Option<Piece> {
    match p
    case Text(_) => Some(p)
    case Ref(kind, number) =>
      if kind == '#' then (if number in hashTable then Some(Ref(kind, hashTable[number])) else None)
      else if kind == '!' then (if number in bangTable then Some(Ref(kind, bangTable[number])) else None)
      else None
  }

  /** All references of a text renumbered, or an error. */
  function Rewrite(ps: seq<Piece>, hashTable: Renumbering, bangTable: Renumbering): Option<seq<Piece>> {
    if ps == [] then Some([])
    else
      match Resolve(ps[0], hashTable, bangTable)
      case None => None
      case Some(p) =>
        match Rewrite(ps[1..], hashTable, bangTable)
        case None => None
        case Some(rest) => Some([p] + rest)
  }

  predicate Defined(p: Piece, hashTable: Renumbering, bangTable: Renumbering) {
    p.Ref? ==> (p.kind == '#' && p.number in hashTable) || (p.kind == '!' && p.number in bangTable)
  }

  /** Rewriting fails exactly when some reference is undefined, and renumbers piece by piece. */
  lemma {:induction false} RewriteEach(ps: seq<Piece>, hashTable: Renumbering, bangTable: Renumbering)
    ensures Rewrite(ps, hashTable, bangTable).Some? <==> forall i :: 0 <= i < |ps| ==> Defined(ps[i], hashTable, bangTable)
    ensures Rewrite(ps, hashTable, bangTable).Some? ==>
      var qs := Rewrite(ps, hashTable, bangTable).value;
      |qs| == |ps| && forall i :: 0 <= i < |ps| ==> Resolve(ps[i], hashTable, bangTable) == Some(qs[i])
    decreases |ps|
  {
    if ps != [] {
      RewriteEach(ps[1..], hashTable, bangTable);
      assert forall i :: 0 < i < |ps| ==> ps[i] == ps[1..][i - 1];
      if Rewrite(ps, hashTable, bangTable).Some? {
        var qs := Rewrite(ps, hashTable, bangTable).value;
        forall i | 0 <= i < |ps| ensures Resolve(ps[i], hashTable, bangTable) == Some(qs[i]) {
          if i > 0 { assert qs[i] == qs[1..][i - 1]; }
        }
      }
    }
  }

  lemma {:induction false} RewriteIsCanonical(ps: seq<Piece>, hashTable: Renumbering, bangTable: Renumbering)
    requires Canonical(ps) && Rewrite(ps, hashTable, bangTable).Some?
    ensures Canonical(Rewrite(ps, hashTable, bangTable).value)
    ensures StartsWithDigit(Rewrite(ps, hashTable, bangTable).value) <==> StartsWithDigit(ps)
    decreases |ps|
  {
    if ps != [] {
      RewriteEach(ps, hashTable, bangTable);
      var qs := Rewrite(ps, hashTable, bangTable).value;
      assert ps[1..][1..] == ps[2..];
      assert qs[2..] == Rewrite(ps[2..], hashTable, bangTable).value;
      RewriteIsCanonical(ps[2..], hashTable, bangTable);
    }
  }

  /** Rewriting changes references only: the printed text splits into the same pieces with the references renumbered. */
  lemma RewrittenTextSplits(s: string, hashTable: Renumbering, bangTable: Renumbering)
    requires Rewrite(Pieces(s), hashTable, bangTable).Some?
    ensures var qs := Rewrite(Pieces(s), hashTable, bangTable).value;
      && Pieces(RenderAll(qs)) == qs && |qs| == |Pieces(s)|
      && forall i :: 0 <= i < |qs| ==> Resolve(Pieces(s)[i], hashTable, bangTable) == Some(qs[i])
  {
    PiecesAreCanonical(s);
    RewriteEach(Pieces(s), hashTable, bangTable);
    RewriteIsCanonical(Pieces(s), hashTable, bangTable);
    PiecesOfRender(Rewrite(Pieces(s), hashTable, bangTable).value);
  }
}

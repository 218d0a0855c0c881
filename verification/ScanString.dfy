/** Reading a quoted string with escapes from a line, and the printers it undoes. */
module ScanString {
  import opened Prelude

  /** A char of the target, where it is signed. */
  type Char = c: int | -128 <= c < 128 witness 0

  /** The conversion of a char to a 16-bit code unit. */
  function Widen(c: Char): Unit {
    if c < 0 then c + 0x1_0000 else c
  }

  /** What sscanf with "%04x" reads from the start of a text, if anything. */
  type Scanner = seq<Char> -> Option<nat>

  predicate IsHexDigit(c: Char) {
    48 <= c <= 57 || 65 <= c <= 70 || 97 <= c <= 102
  }

  function HexDigit(c: Char): (d: nat)
    requires IsHexDigit(c)
    ensures d < 16
  {
    if c <= 57 then c - 48 else if c <= 70 then c - 55 else c - 87
  }

  predicate StartsWithHex(s: seq<Char>) {
    |s| >= 4 && IsHexDigit(s[0]) && IsHexDigit(s[1]) && IsHexDigit(s[2]) && IsHexDigit(s[3])
  }

  function HexValue(s: seq<Char>): (v: nat)
    requires StartsWithHex(s)
    ensures v < 0x1_0000
  {
    HexDigit(s[0]) * 4096 + HexDigit(s[1]) * 256 + HexDigit(s[2]) * 16 + HexDigit(s[3])
  }

  /** On four hexadecimal digits the C standard fixes the result; on other text anything may be read. */
  ghost predicate ReadsHex(scan: Scanner) {
    forall s: seq<Char> :: StartsWithHex(s) ==> scan(s) == Some(HexValue(s))
  }

  /** The code unit that a letter after a backslash stands for; other letters stand for themselves. */
  function Unescape(c: Char): Unit {
    match c
    case 48 => 0    // 0
    case 97 => 7    // a
    case 98 => 8    // b
    case 102 => 12  // f
    case 110 => 10  // n
    case 114 => 13  // r
    case 116 => 9   // t
    case 118 => 11  // v
    case _ => Widen(c)
  }

  const BACKSLASH: Char := 92
  const LOWER_U: Char := 117

  /** The result of the scan: the index of the terminator, or -1, and what has been appended. */
  datatype Scanned = Scanned(index: int, text: Text)

  /** The scan from index i on, with `text` appended so far. */
  function ScanFrom(scan: Scanner, buffer: seq<Char>, i: nat, escape: bool, text: Text, term: Char): Scanned
    requires i <= |buffer|
    decreases |buffer| - i
  {
    if i == |buffer| then Scanned(-1, text)
    else
      var c := buffer[i];
      if escape then
        if c == LOWER_U then
          if i + 4 >= |buffer| then Scanned(-1, text)
          else
            match scan(buffer[i + 1..])
            case None => Scanned(-1, text)
            case Some(v) => ScanFrom(scan, buffer, i + 5, false, text + [v % 0x1_0000], term)
        else ScanFrom(scan, buffer, i + 1, false, text + [Unescape(c)], term)
      else if Widen(c) == term then Scanned(i, text)
      else if c == BACKSLASH then ScanFrom(scan, buffer, i + 1, true, text, term)
      else ScanFrom(scan, buffer, i + 1, false, text + [Widen(c)], term)
  }

  class StringBuilder {
    var text: Text

    constructor ()
      ensures text == []
    {
      text := [];
    }

    method Append(c: Unit)
      modifies this
      ensures text == old(text) + [c]
    {
      text := text + [c];
    }
  }

  method Scan(scan: Scanner, buffer: array<Char>, builder: StringBuilder, term: Char) returns (index: int)
    modifies builder
    ensures Scanned(index, builder.text) == ScanFrom(scan, buffer[..], 0, false, old(builder.text), term)
  {
    var escape := false;
    var i := 0;
    while i < buffer.Length
      invariant 0 <= i <= buffer.Length
      invariant ScanFrom(scan, buffer[..], i, escape, builder.text, term) ==
                ScanFrom(scan, buffer[..], 0, false, old(builder.text), term)
    {
      var c := Widen(buffer[i]);
      if escape {
        match buffer[i] {
          case 48 => c := 0;
          case 97 => c := 7;
          case 98 => c := 8;
          case 102 => c := 12;
          case 110 => c := 10;
          case 114 => c := 13;
          case 116 => c := 9;
          case 118 => c := 11;
          case 92 => c := 92;
          case 63 => c := 63;
          case 117 =>
            if i + 4 >= buffer.Length { return -1; }
            assert buffer[..][i + 1..] == buffer[i + 1..];
            var value := scan(buffer[i + 1..]);
            if value.None? { return -1; }
            c := value.value % 0x1_0000;
            i := i + 4;
          case _ =>
        }
        builder.Append(c);
        escape := false;
      } else {
        if c == term { return i; }
        if c == 92 {
          escape := true;
        } else {
          builder.Append(c);
        }
      }
      i := i + 1;
    }
    index := -1;
  }

  // ---------------------------------------------------------------- what an escape means

  /** The conversion keeps the value modulo 2^16. */
  lemma WidenKeepsValue(c: Char)
    ensures (Widen(c) - c) % 0x1_0000 == 0
  {
  }

  /** A backslash and a letter: the seven letters of "abtnvfr" stand for the controls 7 to 13, the digit 0 for 0, and
      every other letter but u for itself. */
  lemma LettersMean(scan: Scanner, buffer: seq<Char>, i: nat, text: Text, term: Char)
    requires i + 1 < |buffer| && buffer[i] == '\\' as int && buffer[i + 1] != 'u' as int && term != '\\' as int
    ensures var c, r := buffer[i + 1], ScanFrom(scan, buffer, i, false, text, term);
      && (forall k :: 0 <= k < 7 && c == "abtnvfr"[k] as int ==>
            r == ScanFrom(scan, buffer, i + 2, false, text + [(7 + k) as Unit], term))
      && (c == '0' as int ==> r == ScanFrom(scan, buffer, i + 2, false, text + [0], term))
      && (c != '0' as int && (forall k :: 0 <= k < 7 ==> c != "abtnvfr"[k] as int) ==>
            r == ScanFrom(scan, buffer, i + 2, false, text + [Widen(c)], term))
  {
    ScanLetterAt(scan, buffer, i, text, term);
    ControlLetters(buffer[i + 1]);
    hide ScanFrom, Unescape;
  }

  lemma ControlLetters(c: Char)
    ensures forall k :: 0 <= k < 7 && c == "abtnvfr"[k] as int ==> Unescape(c) == 7 + k
    ensures c == '0' as int ==> Unescape(c) == 0
    ensures c != '0' as int && (forall k :: 0 <= k < 7 ==> c != "abtnvfr"[k] as int) ==> Unescape(c) == Widen(c)
  {
    var s := "abtnvfr";
    assert s[0] == 'a' && s[1] == 'b' && s[2] == 't' && s[3] == 'n' && s[4] == 'v' && s[5] == 'f' && s[6] == 'r';
    forall k | 0 <= k < 7 && c == s[k] as int ensures Unescape(c) == 7 + k {
      assert k == 0 || k == 1 || k == 2 || k == 3 || k == 4 || k == 5 || k == 6;
    }
  }

  /** A backslash and u: the scan fails at once if fewer than four characters follow or sscanf reads nothing there;
      otherwise it appends what is read, modulo 2^16, and goes on after the four characters. */
  lemma UnicodeEscapes(scan: Scanner, buffer: seq<Char>, i: nat, text: Text, term: Char)
    requires i + 1 < |buffer| && buffer[i] == '\\' as int && buffer[i + 1] == 'u' as int && term != '\\' as int
    ensures ScanFrom(scan, buffer, i, false, text, term) ==
      if |buffer| < i + 6 || scan(buffer[i + 2..]).None? then Scanned(-1, text)
      else ScanFrom(scan, buffer, i + 6, false, text + [scan(buffer[i + 2..]).value % 0x1_0000], term)
  {
    hide Unescape;
    assert ScanFrom(scan, buffer, i, false, text, term) == ScanFrom(scan, buffer, i + 1, true, text, term);
  }

  /** A hexadecimal digit is its place in the alphabet of digits, in lower or upper case, and there are no others. */
  lemma HexDigitsMean(c: Char)
    ensures forall k :: 0 <= k < 16 && c == "0123456789abcdef"[k] as int ==> IsHexDigit(c) && HexDigit(c) == k
    ensures forall k :: 0 <= k < 16 && c == "0123456789ABCDEF"[k] as int ==> IsHexDigit(c) && HexDigit(c) == k
    ensures IsHexDigit(c) ==>
      c == "0123456789abcdef"[HexDigit(c)] as int || c == "0123456789ABCDEF"[HexDigit(c)] as int
  {
  }

  /** Four digits are read from left to right, each worth sixteen of the next. */
  lemma HexIsPositional(s: seq<Char>)
    requires StartsWithHex(s)
    ensures HexValue(s) == ((HexDigit(s[0]) * 16 + HexDigit(s[1])) * 16 + HexDigit(s[2])) * 16 + HexDigit(s[3])
  {
  }

  // ---------------------------------------------------------------- encodings

  /** The ways to write one code unit: as itself, by a letter after a backslash, or by four hexadecimal digits. */
  datatype Token = Raw(c: Char) | Letter(c: Char) | Hex(digits: seq<Char>)

  predicate ValidToken(t: Token, term: Char) {
    match t
    case Raw(c) => c != BACKSLASH && Widen(c) != term
    case Letter(c) => c != LOWER_U
    case Hex(digits) => |digits| == 4 && StartsWithHex(digits)
  }

  ghost predicate ValidTokens(ts: seq<Token>, term: Char) {
    forall i :: 0 <= i < |ts| ==> ValidToken(ts[i], term)
  }

  function Written(t: Token): seq<Char> {
    match t
    case Raw(c) => [c]
    case Letter(c) => [BACKSLASH, c]
    case Hex(digits) => [BACKSLASH, LOWER_U] + digits
  }

  function Meaning(t: Token, term: Char): Unit
    requires ValidToken(t, term)
  {
    match t
    case Raw(c) => Widen(c)
    case Letter(c) => Unescape(c)
    case Hex(digits) => HexValue(digits)
  }

  function WrittenAll(ts: seq<Token>): seq<Char> {
    if ts == [] then [] else Written(ts[0]) + WrittenAll(ts[1..])
  }

  function Meanings(ts: seq<Token>, term: Char): (r: Text)
    requires forall i :: 0 <= i < |ts| ==> ValidToken(ts[i], term)
    ensures |r| == |ts|
  {
    if ts == [] then [] else [Meaning(ts[0], term)] + Meanings(ts[1..], term)
  }

  lemma ScanRawAt(scan: Scanner, buffer: seq<Char>, i: nat, text: Text, term: Char)
    requires i < |buffer| && buffer[i] != BACKSLASH && Widen(buffer[i]) != term
    ensures ScanFrom(scan, buffer, i, false, text, term) ==
      ScanFrom(scan, buffer, i + 1, false, text + [Widen(buffer[i])], term)
  {
  }

  lemma ScanLetterAt(scan: Scanner, buffer: seq<Char>, i: nat, text: Text, term: Char)
    requires i + 1 < |buffer| && buffer[i] == BACKSLASH && buffer[i + 1] != LOWER_U && term != BACKSLASH
    ensures ScanFrom(scan, buffer, i, false, text, term) ==
      ScanFrom(scan, buffer, i + 2, false, text + [Unescape(buffer[i + 1])], term)
  {
    hide Unescape;
    assert ScanFrom(scan, buffer, i, false, text, term) == ScanFrom(scan, buffer, i + 1, true, text, term);
  }

  lemma ScanHexAt(scan: Scanner, buffer: seq<Char>, i: nat, text: Text, term: Char)
    requires i + 5 < |buffer| && buffer[i] == BACKSLASH && buffer[i + 1] == LOWER_U && term != BACKSLASH
    requires ReadsHex(scan) && StartsWithHex(buffer[i + 2..])
    ensures ScanFrom(scan, buffer, i, false, text, term) ==
      ScanFrom(scan, buffer, i + 6, false, text + [HexValue(buffer[i + 2..])], term)
  {
    var v := HexValue(buffer[i + 2..]);
    assert scan(buffer[i + 2..]) == Some(v);
    hide HexValue, StartsWithHex, Unescape, ReadsHex;
    assert ScanFrom(scan, buffer, i, false, text, term) == ScanFrom(scan, buffer, i + 1, true, text, term);
  }

  /** One token moves the scan past it and appends what it means, whatever follows. */
  lemma ScanToken(scan: Scanner, before: seq<Char>, t: Token, after: seq<Char>, text: Text, term: Char)
    requires ReadsHex(scan) && ValidToken(t, term) && term != BACKSLASH
    ensures var buffer := before + (Written(t) + after); var i := |before|;
      ScanFrom(scan, buffer, i, false, text, term) ==
      ScanFrom(scan, buffer, i + |Written(t)|, false, text + [Meaning(t, term)], term)
  {
    hide ScanFrom, ReadsHex, HexValue, Unescape;
    var buffer, i := before + (Written(t) + after), |before|;
    assert buffer[i] == Written(t)[0];
    match t
    case Raw(c) =>
      ScanRawAt(scan, buffer, i, text, term);
    case Letter(c) =>
      assert buffer[i + 1] == c;
      ScanLetterAt(scan, buffer, i, text, term);
    case Hex(digits) =>
      assert buffer[i + 1] == LOWER_U;
      assert buffer[i + 2..] == digits + after;
      HexOfPrefix(digits, after);
      ScanHexAt(scan, buffer, i, text, term);
  }

  lemma HexOfPrefix(digits: seq<Char>, after: seq<Char>)
    requires |digits| == 4 && StartsWithHex(digits)
    ensures StartsWithHex(digits + after) && HexValue(digits + after) == HexValue(digits)
  {
  }

  /** Scanning undoes writing: tokens up to a terminator are read as what they mean, whatever comes before and after. */
  lemma {:induction false} ScanTokens(scan: Scanner, before: seq<Char>, ts: seq<Token>, suffix: seq<Char>, text: Text, term: Char)
    requires ReadsHex(scan) && ValidTokens(ts, term) && 0 <= term && term != BACKSLASH
    ensures ScanFrom(scan, before + (WrittenAll(ts) + ([term] + suffix)), |before|, false, text, term) ==
      Scanned(|before| + |WrittenAll(ts)|, text + Meanings(ts, term))
    decreases |ts|
  {
    hide ScanFrom, Written, Meaning, ReadsHex, WrittenAll, Meanings, ValidToken;
    var rest := [term] + suffix;
    if ts == [] {
      NoTokens(text, rest, term);
      ScanTerminator(scan, before, suffix, text, term);
    } else {
      var t, more := ts[0], ts[1..];
      WritesMore(before, ts, rest);
      ScanToken(scan, before, t, WrittenAll(more) + rest, text, term);
      ScanTokens(scan, before + Written(t), more, suffix, text + [Meaning(t, term)], term);
      MeansMore(text, ts, term);
    }
  }

  lemma MeansMore(text: Text, ts: seq<Token>, term: Char)
    requires ts != [] && ValidTokens(ts, term)
    ensures text + Meanings(ts, term) == text + [Meaning(ts[0], term)] + Meanings(ts[1..], term)
  {
  }

  lemma WritesMore(before: seq<Char>, ts: seq<Token>, rest: seq<Char>)
    requires ts != []
    ensures var w := Written(ts[0]);
      && before + (WrittenAll(ts) + rest) == before + (w + (WrittenAll(ts[1..]) + rest))
      && before + (WrittenAll(ts) + rest) == (before + w) + (WrittenAll(ts[1..]) + rest)
      && |WrittenAll(ts)| == |w| + |WrittenAll(ts[1..])|
  {
    Regroup(before, Written(ts[0]), WrittenAll(ts[1..]), rest);
  }

  lemma ScanTerminator(scan: Scanner, before: seq<Char>, suffix: seq<Char>, text: Text, term: Char)
    requires 0 <= term
    ensures ScanFrom(scan, before + ([term] + suffix), |before|, false, text, term) == Scanned(|before|, text)
  {
    assert (before + ([term] + suffix))[|before|] == term;
  }

  lemma Regroup(before: seq<Char>, w: seq<Char>, more: seq<Char>, rest: seq<Char>)
    ensures before + ((w + more) + rest) == before + (w + (more + rest)) == (before + w) + (more + rest)
  {
  }

  /** Without a terminator the scan fails, having read everything. */
  lemma {:induction false} ScanUnterminated(scan: Scanner, before: seq<Char>, ts: seq<Token>, text: Text, term: Char)
    requires ReadsHex(scan) && ValidTokens(ts, term) && term != BACKSLASH
    ensures ScanFrom(scan, before + WrittenAll(ts), |before|, false, text, term) == Scanned(-1, text + Meanings(ts, term))
    decreases |ts|
  {
    hide Written, Meaning, ReadsHex, WrittenAll, Meanings, ValidToken;
    if ts == [] {
      NoTokens(text, [], term);
      assert before + WrittenAll(ts) == before;
    } else {
      hide ScanFrom;
      var t, more := ts[0], ts[1..];
      WritesMore(before, ts, []);
      AppendNothing(before, WrittenAll(ts));
      AppendNothing(before + Written(t), WrittenAll(more));
      ScanToken(scan, before, t, WrittenAll(more) + [], text, term);
      ScanUnterminated(scan, before + Written(t), more, text + [Meaning(t, term)], term);
      MeansMore(text, ts, term);
    }
  }

  lemma NoTokens(text: Text, rest: seq<Char>, term: Char)
    ensures WrittenAll([]) == [] && WrittenAll([]) + rest == rest && text + Meanings([], term) == text
  {
  }

  lemma AppendNothing(a: seq<Char>, b: seq<Char>)
    ensures a + (b + []) == a + b
  {
    assert b + [] == b;
  }

  // ---------------------------------------------------------------- what is accepted

  /** Every `\u` escape that starts at i or later and before k is followed by four hexadecimal digits. */
  predicate HexFollows(buffer: seq<Char>, i: nat, k: nat)
    requires i <= |buffer|
    decreases |buffer| - i
  {
    if i >= k || i == |buffer| then true
    else if buffer[i] != BACKSLASH then HexFollows(buffer, i + 1, k)
    else if i + 1 == |buffer| then true
    else if buffer[i + 1] != LOWER_U then HexFollows(buffer, i + 2, k)
    else StartsWithHex(buffer[i + 2..]) && HexFollows(buffer, i + 6, k)
  }

  /** The text from i on starts with a token. */
  predicate HasToken(buffer: seq<Char>, i: nat) {
    && i < |buffer|
    && (buffer[i] == BACKSLASH ==> i + 1 < |buffer|)
    && (buffer[i] == BACKSLASH && buffer[i + 1] == LOWER_U ==> StartsWithHex(buffer[i + 2..]))
  }

  /** That token. */
  function TokenAt(buffer: seq<Char>, i: nat): Token
    requires HasToken(buffer, i)
  {
    if buffer[i] != BACKSLASH then Raw(buffer[i])
    else if buffer[i + 1] != LOWER_U then Letter(buffer[i + 1])
    else Hex(buffer[i + 2..i + 6])
  }

  lemma TokenAtReads(scan: Scanner, buffer: seq<Char>, i: nat, text: Text, term: Char)
    requires ReadsHex(scan) && term != BACKSLASH && HasToken(buffer, i) && Widen(buffer[i]) != term
    ensures var t := TokenAt(buffer, i); var j := i + |Written(t)|;
      && ValidToken(t, term) && j <= |buffer| && Written(t) == buffer[i..j]
      && ScanFrom(scan, buffer, i, false, text, term) == ScanFrom(scan, buffer, j, false, text + [Meaning(t, term)], term)
  {
    hide ScanFrom, ReadsHex, Unescape, HexDigit;
    if buffer[i] != BACKSLASH {
      ScanRawAt(scan, buffer, i, text, term);
    } else if buffer[i + 1] != LOWER_U {
      ScanLetterAt(scan, buffer, i, text, term);
    } else {
      ScanHexAt(scan, buffer, i, text, term);
      assert buffer[i + 2..i + 6] == buffer[i + 2..][..4];
    }
  }

  lemma NextHexFollows(buffer: seq<Char>, i: nat, k: nat)
    requires i < k < |buffer| && HexFollows(buffer, i, k)
    ensures HasToken(buffer, i)
    ensures var j := i + |Written(TokenAt(buffer, i))|; j <= |buffer| && HexFollows(buffer, j, k)
  {
  }

  lemma ScanEnds(scan: Scanner, buffer: seq<Char>, i: nat, text: Text, term: Char)
    requires i <= |buffer|
    ensures i == |buffer| ==> ScanFrom(scan, buffer, i, false, text, term) == Scanned(-1, text)
    ensures i < |buffer| && Widen(buffer[i]) == term ==> ScanFrom(scan, buffer, i, false, text, term) == Scanned(i, text)
    ensures i + 1 == |buffer| && buffer[i] == BACKSLASH && term != BACKSLASH ==>
      ScanFrom(scan, buffer, i, false, text, term) == Scanned(-1, text)
  {
  }

  lemma {:induction false} IndexComesLater(scan: Scanner, buffer: seq<Char>, i: nat, escape: bool, text: Text, term: Char)
    requires i <= |buffer|
    ensures var k := ScanFrom(scan, buffer, i, escape, text, term).index; k == -1 || i <= k < |buffer|
    decreases |buffer| - i
  {
    if i < |buffer| {
      if escape {
        if buffer[i] == LOWER_U {
          if i + 4 < |buffer| {
            match scan(buffer[i + 1..])
            case None =>
            case Some(v) => IndexComesLater(scan, buffer, i + 5, false, text + [v % 0x1_0000], term);
          }
        } else {
          IndexComesLater(scan, buffer, i + 1, false, text + [Unescape(buffer[i])], term);
        }
      } else if Widen(buffer[i]) != term {
        IndexComesLater(scan, buffer, i + 1, true, text, term);
        IndexComesLater(scan, buffer, i + 1, false, text + [Widen(buffer[i])], term);
      }
    }
  }

  /** The tokens ts fill the buffer from i up to a terminator at r.index, and r.text is text and what they mean. */
  ghost predicate ReadAs(buffer: seq<Char>, i: nat, ts: seq<Token>, text: Text, r: Scanned, term: Char) {
    && i <= r.index < |buffer| && buffer[r.index] == term
    && ValidTokens(ts, term) && WrittenAll(ts) == buffer[i..r.index]
    && r.text == text + Meanings(ts, term)
  }

  /** A scan that returns an index has read tokens up to a terminator there, and appended what they mean. */
  lemma {:induction false} ScanReadsTokens(scan: Scanner, buffer: seq<Char>, i: nat, text: Text, term: Char)
    returns (ts: seq<Token>)
    requires ReadsHex(scan) && 0 <= term && term != BACKSLASH && i <= |buffer|
    requires var k := ScanFrom(scan, buffer, i, false, text, term).index; k >= 0 && HexFollows(buffer, i, k)
    ensures ReadAs(buffer, i, ts, text, ScanFrom(scan, buffer, i, false, text, term), term)
    decreases |buffer| - i
  {
    hide *;
    var r := ScanFrom(scan, buffer, i, false, text, term);
    ScanEnds(scan, buffer, i, text, term);
    if Widen(buffer[i]) == term {
      ts := [];
      NothingRead(buffer, i, text, term);
    } else {
      var t, j := ScanStep(scan, buffer, i, text, term);
      var more := ScanReadsTokens(scan, buffer, j, text + [Meaning(t, term)], term);
      ts := [t] + more;
      OneMore(buffer, i, j, t, more, text, r, term);
    }
  }

  /** The first token of such a scan. */
  lemma ScanStep(scan: Scanner, buffer: seq<Char>, i: nat, text: Text, term: Char) returns (t: Token, j: nat)
    requires ReadsHex(scan) && term != BACKSLASH && i < |buffer| && Widen(buffer[i]) != term
    requires var k := ScanFrom(scan, buffer, i, false, text, term).index; k >= 0 && HexFollows(buffer, i, k)
    ensures i < j <= |buffer| && ValidToken(t, term) && Written(t) == buffer[i..j]
    ensures ScanFrom(scan, buffer, i, false, text, term) == ScanFrom(scan, buffer, j, false, text + [Meaning(t, term)], term)
    ensures HexFollows(buffer, j, ScanFrom(scan, buffer, i, false, text, term).index)
  {
    hide *;
    var k := ScanFrom(scan, buffer, i, false, text, term).index;
    IndexComesLater(scan, buffer, i, false, text, term);
    IndexPasses(scan, buffer, i, text, term);
    NextHexFollows(buffer, i, k);
    TokenAtReads(scan, buffer, i, text, term);
    t := TokenAt(buffer, i);
    WritesSomething(t);
    j := i + |Written(t)|;
  }

  lemma NothingRead(buffer: seq<Char>, i: nat, text: Text, term: Char)
    requires i < |buffer| && Widen(buffer[i]) == term
    ensures ReadAs(buffer, i, [], text, Scanned(i, text), term)
  {
  }

  lemma WritesSomething(t: Token)
    ensures |Written(t)| > 0
  {
  }

  lemma OneMore(buffer: seq<Char>, i: nat, j: nat, t: Token, more: seq<Token>, text: Text, r: Scanned, term: Char)
    requires i <= j <= |buffer| && Written(t) == buffer[i..j] && ValidToken(t, term)
    requires ReadAs(buffer, j, more, text + [Meaning(t, term)], r, term)
    ensures ReadAs(buffer, i, [t] + more, text, r, term)
  {
    hide Written, Meaning, ValidToken;
    var ts := [t] + more;
    assert ts[1..] == more;
    MeansMore(text, ts, term);
    assert buffer[i..r.index] == buffer[i..j] + buffer[j..r.index];
  }

  lemma IndexPasses(scan: Scanner, buffer: seq<Char>, i: nat, text: Text, term: Char)
    requires i < |buffer| && Widen(buffer[i]) != term
    ensures var k := ScanFrom(scan, buffer, i, false, text, term).index; k == -1 || i < k
  {
    IndexComesLater(scan, buffer, i + 1, true, text, term);
    IndexComesLater(scan, buffer, i + 1, false, text + [Widen(buffer[i])], term);
  }

  /** The scan of a buffer returns the index k exactly when the terminator stands there and valid tokens fill the buffer
      up to it, provided that the `\u` escapes up to there are well formed; what is appended is then what they mean. */
  lemma ScanAcceptsExactly(scan: Scanner, buffer: seq<Char>, k: nat, term: Char)
    requires ReadsHex(scan) && 0 <= term && term != BACKSLASH && k < |buffer| && HexFollows(buffer, 0, k)
    ensures ScanFrom(scan, buffer, 0, false, [], term).index == k <==>
      buffer[k] == term && exists ts :: ValidTokens(ts, term) && WrittenAll(ts) == buffer[..k]
    ensures forall ts :: buffer[k] == term && ValidTokens(ts, term) && WrittenAll(ts) == buffer[..k] ==>
      ScanFrom(scan, buffer, 0, false, [], term) == Scanned(k, Meanings(ts, term))
  {
    hide ScanFrom, ReadsHex, HexFollows, WrittenAll, Meanings, ValidToken;
    if ScanFrom(scan, buffer, 0, false, [], term).index == k {
      var ts := ScanReadsTokens(scan, buffer, 0, [], term);
      assert buffer[0..k] == buffer[..k];
    }
    forall ts | buffer[k] == term && ValidTokens(ts, term) && WrittenAll(ts) == buffer[..k]
      ensures ScanFrom(scan, buffer, 0, false, [], term) == Scanned(k, Meanings(ts, term))
    {
      TokensAccepted(scan, buffer, ts, k, term);
    }
  }

  lemma TokensAccepted(scan: Scanner, buffer: seq<Char>, ts: seq<Token>, k: nat, term: Char)
    requires ReadsHex(scan) && 0 <= term && term != BACKSLASH && k < |buffer|
    requires buffer[k] == term && ValidTokens(ts, term) && WrittenAll(ts) == buffer[..k]
    ensures ScanFrom(scan, buffer, 0, false, [], term) == Scanned(k, Meanings(ts, term))
  {
    hide ScanFrom, ReadsHex, WrittenAll, Meanings, ValidToken;
    ScanTokens(scan, [], ts, buffer[k + 1..], [], term);
    assert buffer == [] + (buffer[..k] + ([term] + buffer[k + 1..]));
    assert [] + Meanings(ts, term) == Meanings(ts, term);
  }

  // ---------------------------------------------------------------- a printer

  function HexChar(d: nat): (c: Char)
    requires d < 16
    ensures IsHexDigit(c) && HexDigit(c) == d
  {
    if d < 10 then 48 + d else 87 + d
  }

  function HexDigits(x: Unit): seq<Char> {
    [HexChar(x / 4096), HexChar(x / 256 % 16), HexChar(x / 16 % 16), HexChar(x % 16)]
  }

  lemma HexRoundTrip(x: Unit)
    ensures StartsWithHex(HexDigits(x)) && HexValue(HexDigits(x)) == x && |HexDigits(x)| == 4
    ensures forall c :: c in HexDigits(x) ==> 32 <= c < 127
  {
    assert x == x / 16 * 16 + x % 16;
    assert x / 16 == x / 256 * 16 + x / 16 % 16;
    assert x / 256 == x / 4096 * 16 + x / 256 % 16;
  }

  /** One way to write a code unit in ASCII: letters for the usual controls, a backslash before the terminator and the
      backslash, printable characters as themselves, and digits for the rest. */
  function Escape(x: Unit, term: Char): Token {
    match x
    case 0 => Letter(48)
    case 7 => Letter(97)
    case 8 => Letter(98)
    case 12 => Letter(102)
    case 10 => Letter(110)
    case 13 => Letter(114)
    case 9 => Letter(116)
    case 11 => Letter(118)
    case _ =>
      if x == 92 || (x == term && 32 < x < 48) then Letter(x)
      else if 32 <= x < 127 && x != term then Raw(x)
      else Hex(HexDigits(x))
  }

  function EscapeAll(s: Text, term: Char): seq<Token> {
    if s == [] then [] else [Escape(s[0], term)] + EscapeAll(s[1..], term)
  }

  lemma EscapeMeans(x: Unit, term: Char)
    ensures ValidToken(Escape(x, term), term) && Meaning(Escape(x, term), term) == x
    ensures forall c :: c in Written(Escape(x, term)) ==> 32 <= c < 127
  {
    hide HexDigits, HexValue, StartsWithHex;
    HexRoundTrip(x);
  }

  lemma {:induction false} EscapeAllMeans(s: Text, term: Char)
    ensures ValidTokens(EscapeAll(s, term), term) && Meanings(EscapeAll(s, term), term) == s
    ensures forall c :: c in WrittenAll(EscapeAll(s, term)) ==> 32 <= c < 127
    decreases |s|
  {
    if s != [] {
      EscapeMeans(s[0], term);
      EscapeAllMeans(s[1..], term);
    }
  }

  /** Every text of 16-bit code units has an ASCII form that scans back to it. */
  lemma ScanUndoesEscape(scan: Scanner, s: Text, suffix: seq<Char>, term: Char)
    requires ReadsHex(scan) && 0 <= term && term != BACKSLASH
    ensures var printed := WrittenAll(EscapeAll(s, term));
      && (forall c :: c in printed ==> 32 <= c < 127)
      && ScanFrom(scan, printed + ([term] + suffix), 0, false, [], term) == Scanned(|printed|, s)
  {
    var ts := EscapeAll(s, term);
    EscapeAllMeans(s, term);
    ScanTokens(scan, [], ts, suffix, [], term);
    assert [] + (WrittenAll(ts) + ([term] + suffix)) == WrittenAll(ts) + ([term] + suffix);
    assert [] + Meanings(ts, term) == Meanings(ts, term);
  }
}

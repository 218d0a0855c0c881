/**
 The COMPARE_n macros that the generated recogniser uses: several characters are loaded as one machine word
 and compared with a word packed at compile time.
 */
module KeywordCompare {
  import opened Prelude

  /** The configurations the macros distinguish. */
  datatype Target = NeedsAlignedAccess | BigEndian | LittleEndian | X86_64

  /** `CHAR` buffers hold 8-bit units, `UCHAR` buffers 16-bit units. */
  datatype Width = CHAR | UCHAR

  function UnitRange(width: Width): nat {
    match width case CHAR => 0x100 case UCHAR => 0x1_0000
  }

  predicate Fits(code: Text, width: Width) {
    forall i :: 0 <= i < |code| ==> code[i] < UnitRange(width)
  }

  /** Characters written as C character literals: 7-bit, so that a signed `char` is not negative. */
  predicate Ascii(chars: Text) {
    forall i :: 0 <= i < |chars| ==> chars[i] < 0x80
  }

  type Byte = x: int | 0 <= x < 0x100 witness 0

  // ---------------------------------------------------------------- memory

  /** The bytes of one unit in memory. */
  function UnitBytes(u: Unit, width: Width, target: Target): (b: seq<Byte>)
    requires width == CHAR ==> u < 0x100
    ensures |b| == (match width case CHAR => 1 case UCHAR => 2)
  {
    match width
    case CHAR => [u]
    case UCHAR => if target == BigEndian then [u / 0x100, u % 0x100] else [u % 0x100, u / 0x100]
  }

  /** The bytes of the buffer from unit i on, n units long. */
  function Memory(code: Text, width: Width, target: Target, i: nat, n: nat): seq<Byte>
    requires Fits(code, width) && i + n <= |code|
    decreases n
  {
    if n == 0 then [] else UnitBytes(code[i], width, target) + Memory(code, width, target, i + 1, n - 1)
  }

  /** The value of a machine word read from memory. */
  function Word(bytes: seq<Byte>, target: Target): nat {
    if bytes == [] then 0
    else if target == BigEndian then Word(bytes[..|bytes| - 1], target) * 0x100 + bytes[|bytes| - 1]
    else bytes[0] + 0x100 * Word(bytes[1..], target)
  }

  /** reinterpret_cast<const uintN_t*>(code + i)[0], N being the size of n units. */
  function Load(code: Text, width: Width, target: Target, i: nat, n: nat): nat
    requires Fits(code, width) && i + n <= |code|
  {
    Word(Memory(code, width, target, i, n), target)
  }

  // ---------------------------------------------------------------- packed literals

  const POW32 := 0x1_0000_0000
  const POW64 := 0x1_0000_0000_0000_0000

  /** CHARPAIR_TOUINT16 and UCHARPAIR_TOUINT32. */
  function Pair(width: Width, target: Target, a: Unit, b: Unit): nat {
    var (hi, lo) := if target == BigEndian then (a, b) else (b, a);
    match width
    case CHAR => hi * 0x100 + lo
    case UCHAR => (hi * 0x1_0000 % POW32 + lo) % POW32
  }

  /** CHARQUAD_TOUINT32 and UCHARQUAD_TOUINT64, which only x86_64 selects. */
  function Quad(width: Width, a: Unit, b: Unit, c: Unit, d: Unit): nat {
    match width
    case CHAR => (Pair(CHAR, X86_64, c, d) * 0x1_0000 % POW32 + Pair(CHAR, X86_64, a, b)) % POW32
    case UCHAR => (Pair(UCHAR, X86_64, c, d) * POW32 % POW64 + Pair(UCHAR, X86_64, a, b)) % POW64
  }

  // ---------------------------------------------------------------- the macros

  predicate Compare2(target: Target, width: Width, code: Text, i: nat, a: Unit, b: Unit)
    requires Fits(code, width) && i + 2 <= |code|
  {
    if target == NeedsAlignedAccess then code[i] == a && code[i + 1] == b
    else Load(code, width, target, i, 2) == Pair(width, target, a, b)
  }

  predicate Compare4(target: Target, width: Width, code: Text, i: nat, a: Unit, b: Unit, c: Unit, d: Unit)
    requires Fits(code, width) && i + 4 <= |code|
  {
    if target == X86_64 then Load(code, width, target, i, 4) == Quad(width, a, b, c, d)
    else Compare2(target, width, code, i, a, b) && Compare2(target, width, code, i + 2, c, d)
  }

  /** There are macros for 2 to 8 characters; one character is compared directly. */
  predicate HasMacro(n: nat) {
    1 <= n <= 8
  }

  /** The comparison printed for the characters k at unit i. */
  predicate Compare(target: Target, width: Width, code: Text, i: nat, k: Text)
    requires Fits(code, width) && i + |k| <= |code| && HasMacro(|k|)
  {
    match |k|
    case 1 => code[i] == k[0]
    case 2 => Compare2(target, width, code, i, k[0], k[1])
    case 3 => Compare2(target, width, code, i, k[0], k[1]) && code[i + 2] == k[2]
    case 4 => Compare4(target, width, code, i, k[0], k[1], k[2], k[3])
    case 5 => Compare4(target, width, code, i, k[0], k[1], k[2], k[3]) && code[i + 4] == k[4]
    case 6 => Compare4(target, width, code, i, k[0], k[1], k[2], k[3]) && Compare2(target, width, code, i + 4, k[4], k[5])
    case 7 => Compare4(target, width, code, i, k[0], k[1], k[2], k[3])
              && Compare4(target, width, code, i + 3, k[3], k[4], k[5], k[6])
    case _ => Compare4(target, width, code, i, k[0], k[1], k[2], k[3])
              && Compare4(target, width, code, i + 4, k[4], k[5], k[6], k[7])
  }

  // ---------------------------------------------------------------- correctness

  lemma Load2(target: Target, width: Width, code: Text, i: nat)
    requires Fits(code, width) && i + 2 <= |code| && target != NeedsAlignedAccess
    ensures Load(code, width, target, i, 2) == Pair(width, target, code[i], code[i + 1])
  {
    var x, y := UnitBytes(code[i], width, target), UnitBytes(code[i + 1], width, target);
    MemoryOfTwo(code, width, target, i, 1, 1);
    assert Memory(code, width, target, i, 1) == x + [] == x;
    assert Memory(code, width, target, i + 1, 1) == y + [] == y;
    WordOfTwo(x, y, target);
    WordOfUnit(code[i], width, target);
    WordOfUnit(code[i + 1], width, target);
    PairValue(width, target, code[i], code[i + 1]);
    ShiftValues(code[i]);
    ShiftValues(code[i + 1]);
  }

  lemma {:induction false} MemoryOfTwo(code: Text, width: Width, target: Target, i: nat, m: nat, n: nat)
    requires Fits(code, width) && i + m + n <= |code|
    ensures Memory(code, width, target, i, m + n) == Memory(code, width, target, i, m) + Memory(code, width, target, i + m, n)
    decreases m
  {
    if m > 0 {
      MemoryOfTwo(code, width, target, i + 1, m - 1, n);
    }
  }

  lemma WordOfUnit(u: Unit, width: Width, target: Target)
    requires width == CHAR ==> u < 0x100
    ensures Word(UnitBytes(u, width, target), target) == u
  {
    var b := UnitBytes(u, width, target);
    if width == CHAR {
      WordOfByte(u, target);
    } else {
      WordOfByte(b[0], target);
      WordOfByte(b[1], target);
      assert b == [b[0]] + [b[1]];
      WordOfTwo([b[0]], [b[1]], target);
      ShiftValues(b[0]);
      ShiftValues(b[1]);
    }
  }

  lemma WordOfByte(x: Byte, target: Target)
    ensures Word([x], target) == x
  {
    assert [x][..0] == [] && [x][1..] == [];
  }

  /** v moved up by n bytes. */
  function Shift(v: nat, n: nat): nat {
    if n == 0 then v else 0x100 * Shift(v, n - 1)
  }

  /** The word of a concatenation: the second part is more significant, or less on a big-endian target. */
  lemma WordOfTwo(x: seq<Byte>, y: seq<Byte>, target: Target)
    ensures Word(x + y, target) ==
        if target == BigEndian then Shift(Word(x, target), |y|) + Word(y, target)
        else Word(x, target) + Shift(Word(y, target), |x|)
  {
    if target == BigEndian { WordOfTwoBig(x, y); } else { WordOfTwoLittle(x, y, target); }
  }

  lemma {:induction false} WordOfTwoBig(x: seq<Byte>, y: seq<Byte>)
    ensures Word(x + y, BigEndian) == Shift(Word(x, BigEndian), |y|) + Word(y, BigEndian)
    decreases |y|
  {
    if y == [] {
      assert x + y == x;
    } else {
      assert (x + y)[..|x + y| - 1] == x + y[..|y| - 1];
      WordOfTwoBig(x, y[..|y| - 1]);
    }
  }

  lemma {:induction false} WordOfTwoLittle(x: seq<Byte>, y: seq<Byte>, target: Target)
    requires target != BigEndian
    ensures Word(x + y, target) == Word(x, target) + Shift(Word(y, target), |x|)
    decreases |x|
  {
    if x == [] {
      assert x + y == y;
    } else {
      assert (x + y)[1..] == x[1..] + y;
      WordOfTwoLittle(x[1..], y, target);
    }
  }

  lemma ShiftValues(v: nat)
    ensures Shift(v, 1) == 0x100 * v && Shift(v, 2) == 0x1_0000 * v && Shift(v, 4) == POW32 * v
  {
    assert Shift(v, 1) == 0x100 * v;
    assert Shift(v, 2) == 0x1_0000 * v;
    assert Shift(v, 3) == 0x100_0000 * v;
  }

  predicate InRange(width: Width, a: Unit) {
    a < UnitRange(width)
  }

  lemma SmallMod(x: nat, m: nat)
    requires x < m
    ensures x % m == x
  {
  }

  /** The packed pair is the two characters side by side: nothing overflows. */
  lemma PairValue(width: Width, target: Target, a: Unit, b: Unit)
    requires InRange(width, a) && InRange(width, b)
    ensures var (hi, lo) := if target == BigEndian then (a, b) else (b, a);
      Pair(width, target, a, b) == hi * UnitRange(width) + lo
    ensures Pair(width, target, a, b) < UnitRange(width) * UnitRange(width)
  {
    var hi: nat, lo: nat := if target == BigEndian then a else b, if target == BigEndian then b else a;
    if width == UCHAR {
      SmallMod(hi * 0x1_0000, POW32);
      SmallMod(hi * 0x1_0000 + lo, POW32);
    }
  }

  lemma SideBySide(width: Width, h: nat, l: nat, h': nat, l': nat)
    requires l < UnitRange(width) && l' < UnitRange(width)
    ensures h * UnitRange(width) + l == h' * UnitRange(width) + l' <==> h == h' && l == l'
  {
  }

  lemma PairIsInjective(width: Width, target: Target, a: Unit, b: Unit, c: Unit, d: Unit)
    requires InRange(width, a) && InRange(width, b) && InRange(width, c) && InRange(width, d)
    ensures Pair(width, target, a, b) == Pair(width, target, c, d) <==> a == c && b == d
  {
    PairValue(width, target, a, b);
    PairValue(width, target, c, d);
    if target == BigEndian { SideBySide(width, a, b, c, d); } else { SideBySide(width, b, a, d, c); }
  }

  lemma Compare2Correct(target: Target, width: Width, code: Text, i: nat, a: Unit, b: Unit)
    requires Fits(code, width) && i + 2 <= |code| && InRange(width, a) && InRange(width, b)
    ensures Compare2(target, width, code, i, a, b) <==> code[i] == a && code[i + 1] == b
  {
    if target != NeedsAlignedAccess {
      Load2(target, width, code, i);
      PairIsInjective(width, target, code[i], code[i + 1], a, b);
    }
  }

  function Square(width: Width): nat {
    match width case CHAR => 0x1_0000 case UCHAR => POW32
  }

  /** The packed quad is the two packed pairs side by side: nothing overflows. */
  lemma QuadValue(width: Width, a: Unit, b: Unit, c: Unit, d: Unit)
    requires InRange(width, a) && InRange(width, b) && InRange(width, c) && InRange(width, d)
    ensures Quad(width, a, b, c, d) == Pair(width, X86_64, c, d) * Square(width) + Pair(width, X86_64, a, b)
    ensures Pair(width, X86_64, a, b) < Square(width)
  {
    PairValue(width, X86_64, a, b);
    PairValue(width, X86_64, c, d);
    var p, q := Pair(width, X86_64, a, b), Pair(width, X86_64, c, d);
    match width
    case CHAR =>
      SmallMod(q * 0x1_0000, POW32);
      SmallMod(q * 0x1_0000 + p, POW32);
    case UCHAR =>
      SmallMod(q * POW32, POW64);
      SmallMod(q * POW32 + p, POW64);
  }

  lemma Load4(width: Width, code: Text, i: nat)
    requires Fits(code, width) && i + 4 <= |code|
    ensures Load(code, width, X86_64, i, 4) == Quad(width, code[i], code[i + 1], code[i + 2], code[i + 3])
  {
    var x, y := Memory(code, width, X86_64, i, 2), Memory(code, width, X86_64, i + 2, 2);
    MemoryOfTwo(code, width, X86_64, i, 2, 2);
    WordOfTwo(x, y, X86_64);
    Load2(X86_64, width, code, i);
    Load2(X86_64, width, code, i + 2);
    QuadValue(width, code[i], code[i + 1], code[i + 2], code[i + 3]);
    assert |x| == (match width case CHAR => 2 case UCHAR => 4) by {
      assert Memory(code, width, X86_64, i + 2, 0) == [];
      MemoryOfTwo(code, width, X86_64, i, 1, 1);
      assert |Memory(code, width, X86_64, i, 1)| == |UnitBytes(code[i], width, X86_64)|;
      assert |Memory(code, width, X86_64, i + 1, 1)| == |UnitBytes(code[i + 1], width, X86_64)|;
    }
    ShiftValues(Word(y, X86_64));
  }

  lemma QuadIsInjective(width: Width, a: Unit, b: Unit, c: Unit, d: Unit, e: Unit, f: Unit, g: Unit, h: Unit)
    requires InRange(width, a) && InRange(width, b) && InRange(width, c) && InRange(width, d)
    requires InRange(width, e) && InRange(width, f) && InRange(width, g) && InRange(width, h)
    ensures Quad(width, a, b, c, d) == Quad(width, e, f, g, h) <==> a == e && b == f && c == g && d == h
  {
    QuadValue(width, a, b, c, d);
    QuadValue(width, e, f, g, h);
    PairIsInjective(width, X86_64, a, b, e, f);
    PairIsInjective(width, X86_64, c, d, g, h);
    PairsSideBySide(width, Pair(width, X86_64, c, d), Pair(width, X86_64, a, b), Pair(width, X86_64, g, h), Pair(width, X86_64, e, f));
  }

  lemma PairsSideBySide(width: Width, h: nat, l: nat, h': nat, l': nat)
    requires l < Square(width) && l' < Square(width)
    ensures h * Square(width) + l == h' * Square(width) + l' <==> h == h' && l == l'
  {
  }

  lemma Compare4Correct(target: Target, width: Width, code: Text, i: nat, a: Unit, b: Unit, c: Unit, d: Unit)
    requires Fits(code, width) && i + 4 <= |code|
    requires InRange(width, a) && InRange(width, b) && InRange(width, c) && InRange(width, d)
    ensures Compare4(target, width, code, i, a, b, c, d) <==>
        code[i] == a && code[i + 1] == b && code[i + 2] == c && code[i + 3] == d
  {
    if target == X86_64 {
      Load4(width, code, i);
      QuadIsInjective(width, code[i], code[i + 1], code[i + 2], code[i + 3], a, b, c, d);
    } else {
      Compare2Correct(target, width, code, i, a, b);
      Compare2Correct(target, width, code, i + 2, c, d);
    }
  }

  /** The characters lo..hi of k stand at their places after i. */
  ghost predicate EqualRange(code: Text, i: nat, k: Text, lo: nat, hi: nat)
    requires i + |k| <= |code| && hi <= |k|
  {
    forall j :: lo <= j < hi ==> code[i + j] == k[j]
  }

  lemma Two(target: Target, width: Width, code: Text, i: nat, k: Text, s: nat)
    requires Fits(code, width) && i + |k| <= |code| && s + 2 <= |k| && Ascii(k)
    ensures Compare2(target, width, code, i + s, k[s], k[s + 1]) <==> EqualRange(code, i, k, s, s + 2)
  {
    Compare2Correct(target, width, code, i + s, k[s], k[s + 1]);
    if EqualRange(code, i, k, s, s + 2) {
      assert code[i + (s + 1)] == k[s + 1];
    }
  }

  lemma Four(target: Target, width: Width, code: Text, i: nat, k: Text, s: nat)
    requires Fits(code, width) && i + |k| <= |code| && s + 4 <= |k| && Ascii(k)
    ensures Compare4(target, width, code, i + s, k[s], k[s + 1], k[s + 2], k[s + 3]) <==> EqualRange(code, i, k, s, s + 4)
  {
    Compare4Correct(target, width, code, i + s, k[s], k[s + 1], k[s + 2], k[s + 3]);
    if EqualRange(code, i, k, s, s + 4) {
      assert code[i + (s + 1)] == k[s + 1] && code[i + (s + 2)] == k[s + 2] && code[i + (s + 3)] == k[s + 3];
    }
  }

  /** Two overlapping or adjacent ranges make one. */
  lemma EqualUnion(code: Text, i: nat, k: Text, lo: nat, hi: nat)
    requires i + |k| <= |code| && lo <= hi <= |k|
    ensures EqualRange(code, i, k, 0, hi) && EqualRange(code, i, k, lo, |k|) <==> EqualRange(code, i, k, 0, |k|)
  {
  }

  lemma CompareUpTo3(target: Target, width: Width, code: Text, i: nat, k: Text)
    requires Fits(code, width) && i + |k| <= |code| && 1 <= |k| <= 3 && Ascii(k)
    ensures Compare(target, width, code, i, k) <==> EqualRange(code, i, k, 0, |k|)
  {
    if |k| > 1 { Two(target, width, code, i, k, 0); }
  }

  lemma CompareUpTo5(target: Target, width: Width, code: Text, i: nat, k: Text)
    requires Fits(code, width) && i + |k| <= |code| && 4 <= |k| <= 5 && Ascii(k)
    ensures Compare(target, width, code, i, k) <==> EqualRange(code, i, k, 0, |k|)
  {
    Four(target, width, code, i, k, 0);
  }

  lemma Compare6(target: Target, width: Width, code: Text, i: nat, k: Text)
    requires Fits(code, width) && i + |k| <= |code| && |k| == 6 && Ascii(k)
    ensures Compare(target, width, code, i, k) <==> EqualRange(code, i, k, 0, |k|)
  {
    hide Compare2, Compare4, EqualRange;
    Four(target, width, code, i, k, 0);
    Two(target, width, code, i, k, 4);
    EqualUnion(code, i, k, 4, 4);
  }

  lemma Compare7(target: Target, width: Width, code: Text, i: nat, k: Text)
    requires Fits(code, width) && i + |k| <= |code| && |k| == 7 && Ascii(k)
    ensures Compare(target, width, code, i, k) <==> EqualRange(code, i, k, 0, |k|)
  {
    hide Compare2, Compare4, EqualRange;
    Four(target, width, code, i, k, 0);
    Four(target, width, code, i, k, 3);
    EqualUnion(code, i, k, 3, 4);
  }

  lemma Compare8(target: Target, width: Width, code: Text, i: nat, k: Text)
    requires Fits(code, width) && i + |k| <= |code| && |k| == 8 && Ascii(k)
    ensures Compare(target, width, code, i, k) <==> EqualRange(code, i, k, 0, |k|)
  {
    hide Compare2, Compare4, EqualRange;
    Four(target, width, code, i, k, 0);
    Four(target, width, code, i, k, 4);
    EqualUnion(code, i, k, 4, 4);
  }

  /** On every target and for both widths a packed comparison holds exactly when all characters are equal. */
  lemma CompareIsPointwise(target: Target, width: Width, code: Text, i: nat, k: Text)
    requires Fits(code, width) && i + |k| <= |code| && HasMacro(|k|) && Ascii(k)
    ensures Compare(target, width, code, i, k) <==> code[i..i + |k|] == k
  {
    match |k| {
      case 1 => CompareUpTo3(target, width, code, i, k);
      case 2 => CompareUpTo3(target, width, code, i, k);
      case 3 => CompareUpTo3(target, width, code, i, k);
      case 4 => CompareUpTo5(target, width, code, i, k);
      case 5 => CompareUpTo5(target, width, code, i, k);
      case 6 => Compare6(target, width, code, i, k);
      case 7 => Compare7(target, width, code, i, k);
      case _ => Compare8(target, width, code, i, k);
    }
    var w := code[i..i + |k|];
    assert forall j :: 0 <= j < |k| ==> w[j] == code[i + j];
    if w == k {
      assert forall j :: 0 <= j < |k| ==> code[i + j] == w[j];
    }
  }
}

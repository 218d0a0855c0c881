/**
 The table-driven CRC of DumpRenderTree, the bit-serial CRC it implements (section 3.4 of RFC 2083), and the errors the
 CRC detects. The facts about machine words come first; the proofs after them hide the word operations and use only
 these facts.
 */
module Crc {

  type Byte = bv8

  // ---------------------------------------------------------------- the bit-serial definition

  function Xor(a: bv32, b: bv32): bv32 {
    a ^ b
  }

  /** Shift the register by one place, dividing by the polynomial x^32+x^26+x^23+x^22+x^16+x^12+x^11+x^10+x^8+x^7+x^5+
      x^4+x^2+x+1, reflected and without its leading term. */
  function Step(c: bv32): bv32 {
    if c & 1 == 1 then 0xEDB8_8320 ^ (c >> 1) else c >> 1
  }

  function BitWord(bit: bool): bv32 {
    if bit then 1 else 0
  }

  /** Feed message bits into the register, one by one. */
  function Feed(c: bv32, bits: seq<bool>): bv32
    decreases |bits|
  {
    if bits == [] then c else Feed(Step(Xor(c, BitWord(bits[0]))), bits[1..])
  }

  /** The bits of a byte, least significant first. */
  function ByteBits(b: Byte): seq<bool> {
    [b & 1 != 0, b & 2 != 0, b & 4 != 0, b & 8 != 0, b & 16 != 0, b & 32 != 0, b & 64 != 0, b & 128 != 0]
  }

  function Bits(bytes: seq<Byte>): (bits: seq<bool>)
    ensures |bits| == 8 * |bytes|
  {
    if bytes == [] then [] else ByteBits(bytes[0]) + Bits(bytes[1..])
  }

  const ALL_ONES: bv32 := 0xFFFF_FFFF

  /** The CRC: start from all ones, feed the bits of each byte from the least significant one, complement. */
  function Checksum(bytes: seq<Byte>): bv32 {
    Xor(Feed(ALL_ONES, Bits(bytes)), ALL_ONES)
  }

  // ---------------------------------------------------------------- the table

  function Steps(c: bv32, n: nat): bv32
    decreases n
  {
    if n == 0 then c else Steps(Step(c), n - 1)
  }

  /** What makeCrcTable stores for byte b. */
  function Entry(b: Byte): bv32 {
    Steps(b as bv32, 8)
  }

  function EntryAt(i: nat): bv32
    requires i < 256
  {
    Entry(i as bv8)
  }

  ghost predicate IsTable(table: seq<bv32>) {
    |table| == 256 && forall i :: 0 <= i < 256 ==> table[i] == EntryAt(i)
  }

  /** The low byte of the register. */
  function LowByte(c: bv32): Byte {
    (c & 0xFF) as bv8
  }

  /** The register without its low byte, shifted down. */
  function HighBytes(c: bv32): bv32 {
    c >> 8
  }

  /** The index and the new register in the loop of computeCrc, as they are written there. */
  function TableIndex(c: bv32, b: Byte): nat {
    ((c ^ (b as bv32)) & 0xFF) as nat
  }

  function NextRegister(entry: bv32, c: bv32): bv32 {
    entry ^ ((c >> 8) & 0x00FF_FFFF)
  }

  /** The inner loop of makeCrcTable. */
  method TableEntry(i: nat) returns (c: bv32)
    requires i < 256
    ensures c == EntryAt(i)
  {
    hide Xor, Step;
    c := (i as bv8) as bv32;
    var k := 0;
    while k < 8
      invariant 0 <= k <= 8
      invariant Steps(c, 8 - k) == EntryAt(i)
    {
      StepAsWritten(c);
      if c & 1 == 1 {
        c := 0xEDB8_8320 ^ ((c >> 1) & 0x7FFF_FFFF);
      } else {
        c := c >> 1;
      }
      k := k + 1;
    }
  }

  method MakeCrcTable(crcTable: array<bv32>)
    requires crcTable.Length == 256
    modifies crcTable
    ensures IsTable(crcTable[..])
  {
    hide EntryAt;
    var i := 0;
    while i < 256
      invariant 0 <= i <= 256
      invariant forall j :: 0 <= j < i ==> crcTable[j] == EntryAt(j)
    {
      var c := TableEntry(i);
      crcTable[i] := c;
      i := i + 1;
    }
  }

  /** The function-local statics of computeCrc: the table and whether it has been filled. */
  class CrcTable {
    const crcTable: array<bv32>
    var crcTableComputed: bool

    ghost predicate Valid()
      reads this, crcTable
    {
      crcTable.Length == 256 && (crcTableComputed ==> IsTable(crcTable[..]))
    }

    constructor ()
      ensures Valid() && fresh(crcTable) && !crcTableComputed
    {
      crcTable := new bv32[256];
      crcTableComputed := false;
    }

    /** computeCrc, whether or not the table has been filled before. */
    method ComputeCrc(buffer: seq<Byte>) returns (r: bv32)
      requires Valid()
      modifies this, crcTable
      ensures Valid() && crcTableComputed
      ensures r == Checksum(buffer)
    {
      hide Checksum, Feed, TableIndex, NextRegister;
      if !crcTableComputed {
        MakeCrcTable(crcTable);
        crcTableComputed := true;
      }
      ghost var table := crcTable[..];
      assert IsTable(table);
      var crc: bv32 := 0xFFFF_FFFF;
      for i := 0 to |buffer|
        invariant crcTableComputed && crcTable[..] == table
        invariant Feed(ALL_ONES, Bits(buffer)) == Feed(crc, Bits(buffer[i..]))
      {
        FeedByte(table, crc, buffer[i..]);
        assert buffer[i..][1..] == buffer[i + 1..];
        crc := NextRegister(crcTable[TableIndex(crc, buffer[i])], crc);
      }
      ChecksumIs(buffer, crc);
      r := crc ^ 0xFFFF_FFFF;
    }
  }

  // ---------------------------------------------------------------- facts about machine words

  lemma StepAsWritten(c: bv32)
    ensures Step(c) == if c & 1 == 1 then 0xEDB8_8320 ^ ((c >> 1) & 0x7FFF_FFFF) else c >> 1
  {
    assert (c >> 1) & 0x7FFF_FFFF == c >> 1;
  }

  lemma ByteAsIndex(b: Byte)
    ensures b as nat < 256 && (b as nat) as bv8 == b
  {
  }

  lemma IndexSelectsEntry(c: bv32, b: Byte)
    ensures TableIndex(c, b) < 256 && EntryAt(TableIndex(c, b)) == Entry(LowByte(Xor(c, b as bv32)))
  {
    ByteAsIndex(LowByte(Xor(c, b as bv32)));
  }

  lemma NextRegisterIs(entry: bv32, c: bv32)
    ensures NextRegister(entry, c) == Xor(entry, HighBytes(c))
  {
    assert (c >> 8) & 0x00FF_FFFF == c >> 8;
  }

  lemma XorFacts(a: bv32, b: bv32, c: bv32)
    ensures Xor(a, Xor(b, c)) == Xor(Xor(a, b), c)
    ensures Xor(a, 0) == a
  {
  }

  lemma XorCancels(a: bv32, b: bv32, c: bv32)
    ensures Xor(c, a) == Xor(c, b) ==> a == b
    ensures Xor(a, c) == Xor(b, c) ==> a == b
  {
  }

  lemma XorShift(a: bv32, b: bv32)
    ensures (a ^ b) >> 1 == (a >> 1) ^ (b >> 1)
    ensures (a ^ b) & 1 == 1 <==> ((a & 1 == 1) != (b & 1 == 1))
  {
  }

  lemma XorRegroup(p: bv32, x: bv32, y: bv32)
    ensures (p ^ x) ^ (p ^ y) == x ^ y && (p ^ x) ^ y == p ^ (x ^ y) && x ^ (p ^ y) == p ^ (x ^ y)
  {
  }

  /** The register is linear. */
  lemma StepXor(a: bv32, b: bv32)
    ensures Step(Xor(a, b)) == Xor(Step(a), Step(b))
  {
    XorShift(a, b);
    XorRegroup(0xEDB8_8320, a >> 1, b >> 1);
  }

  /** The top bit of the polynomial is set, so a step loses nothing. */
  lemma StepIsInjective(a: bv32, b: bv32)
    requires Step(a) == Step(b)
    ensures a == b
  {
  }

  lemma LowAndHigh(c: bv32)
    ensures Xor(c & 0xFF, c & 0xFFFF_FF00) == c && HighBytes(c & 0xFFFF_FF00) == HighBytes(c)
    ensures (c & 0xFFFF_FF00) & 0xFF == 0 && (LowByte(c) as bv32) == c & 0xFF
  {
  }

  lemma ByteStaysLow(c: bv32, b: Byte)
    ensures HighBytes(Xor(c, b as bv32)) == HighBytes(c)
  {
  }

  lemma StepsOfHigh(c: bv32)
    requires c & 0xFF == 0
    ensures Step(c) == c >> 1 && Step(c >> 1) == c >> 2 && Step(c >> 2) == c >> 3 && Step(c >> 3) == c >> 4
    ensures Step(c >> 4) == c >> 5 && Step(c >> 5) == c >> 6 && Step(c >> 6) == c >> 7 && Step(c >> 7) == HighBytes(c)
  {
  }

  /** A word with one more bit below it. */
  function Append(bit: bool, w: bv32): bv32 {
    (w << 1) ^ BitWord(bit)
  }

  lemma AppendIs(bit: bool, w: bv32)
    ensures Append(bit, w) == Xor(BitWord(bit), w << 1)
  {
  }

  lemma StepOfDouble(w: bv32)
    requires Below(w, 0x8000_0000)
    ensures Step(w << 1) == w
  {
  }

  function Half(q: bv32): bv32 {
    q >> 1
  }

  predicate Below(w: bv32, q: bv32) {
    w < q
  }

  lemma DoubleStaysSmall(w: bv32, q: bv32)
    requires w < (q >> 1)
    ensures (w << 1) ^ 0 < q && (w << 1) ^ 1 < q
  {
  }

  lemma AppendStaysSmall(bit: bool, w: bv32, q: bv32)
    requires Below(w, Half(q))
    ensures Below(Append(bit, w), q)
  {
    DoubleStaysSmall(w, q);
  }

  lemma DoublesDiffer(v: bv32, w: bv32)
    requires v < 0x8000_0000 && w < 0x8000_0000
    ensures (v << 1) ^ 1 != (w << 1) ^ 0
    ensures ((v << 1) ^ 0 == (w << 1) ^ 0 ==> v == w) && ((v << 1) ^ 1 == (w << 1) ^ 1 ==> v == w)
  {
  }

  lemma AppendIsInjective(b: bool, v: bv32, d: bool, w: bv32)
    requires Below(v, 0x8000_0000) && Below(w, 0x8000_0000) && Append(b, v) == Append(d, w)
    ensures v == w && b == d
  {
    DoublesDiffer(v, w);
    DoublesDiffer(w, v);
  }

  lemma ByteFromBits(b: Byte)
    ensures Append(b & 1 != 0, Append(b & 2 != 0, Append(b & 4 != 0, Append(b & 8 != 0,
      Append(b & 16 != 0, Append(b & 32 != 0, Append(b & 64 != 0, Append(b & 128 != 0, 0)))))))) == b as bv32
  {
  }

  // ---------------------------------------------------------------- many steps

  lemma {:induction false} StepsXor(a: bv32, b: bv32, n: nat)
    ensures Steps(Xor(a, b), n) == Xor(Steps(a, n), Steps(b, n))
    decreases n
  {
    hide Xor, Step;
    if n > 0 {
      StepXor(a, b);
      StepsXor(Step(a), Step(b), n - 1);
    }
  }

  lemma {:induction false} StepsAreInjective(a: bv32, b: bv32, n: nat)
    requires Steps(a, n) == Steps(b, n)
    ensures a == b
    decreases n
  {
    hide Xor, Step;
    if n > 0 {
      StepsAreInjective(Step(a), Step(b), n - 1);
      StepIsInjective(a, b);
    }
  }

  lemma EightSteps(c: seq<bv32>)
    requires |c| == 9 && forall i :: 0 <= i < 8 ==> Step(c[i]) == c[i + 1]
    ensures Steps(c[0], 8) == c[8]
  {
    hide Step;
    assert Steps(c[7], 1) == Steps(c[8], 0);
    assert Steps(c[6], 2) == Steps(c[7], 1);
    assert Steps(c[5], 3) == Steps(c[6], 2);
    assert Steps(c[4], 4) == Steps(c[5], 3);
    assert Steps(c[3], 5) == Steps(c[4], 4);
    assert Steps(c[2], 6) == Steps(c[3], 5);
    assert Steps(c[1], 7) == Steps(c[2], 6);
  }

  lemma EightStepsOfHigh(c: bv32)
    requires c & 0xFF == 0
    ensures Steps(c, 8) == HighBytes(c)
  {
    hide Step, HighBytes;
    StepsOfHigh(c);
    EightSteps([c, c >> 1, c >> 2, c >> 3, c >> 4, c >> 5, c >> 6, c >> 7, HighBytes(c)]);
  }

  /** A byte shifted through at once: look the low byte up, shift the rest. */
  lemma EightStepsByTable(c: bv32)
    ensures Steps(c, 8) == Xor(Entry(LowByte(c)), HighBytes(c))
  {
    hide Xor, Step, HighBytes, LowByte;
    LowAndHigh(c);
    StepsXor(c & 0xFF, c & 0xFFFF_FF00, 8);
    EightStepsOfHigh(c & 0xFFFF_FF00);
  }

  // ---------------------------------------------------------------- several bits at once

  /** The bits as a word: bit k of the sequence is bit k of the word. */
  function WordOf(bits: seq<bool>): bv32
    decreases |bits|
  {
    if bits == [] then 0 else Append(bits[0], WordOf(bits[1..]))
  }

  /** The power of two 2^(31 - n). */
  function Limit(n: nat): bv32
    decreases n
  {
    if n == 0 then 0x8000_0000 else Half(Limit(n - 1))
  }

  lemma {:induction false} LimitIsBounded(n: nat)
    ensures Limit(n) <= 0x8000_0000
    decreases n
  {
    if n > 0 { LimitIsBounded(n - 1); }
  }

  lemma LimitOfNoBits()
    ensures Below(WordOf([]), Limit(31))
  {
    assert Limit(4) == 0x0800_0000;
    assert Limit(8) == 0x0080_0000;
    assert Limit(12) == 0x0008_0000;
    assert Limit(16) == 0x0000_8000;
    assert Limit(20) == 0x0000_0800;
    assert Limit(24) == 0x0000_0080;
    assert Limit(28) == 0x0000_0008;
    assert Limit(31) == 1;
  }

  /** n < 32 bits make a word below 2^n. */
  lemma {:induction false} WordOfIsSmall(bits: seq<bool>)
    requires |bits| <= 31
    ensures Below(WordOf(bits), Limit(31 - |bits|))
    decreases |bits|
  {
    hide WordOf, Limit, Below;
    if bits == [] {
      LimitOfNoBits();
    } else {
      WordOfIsSmall(bits[1..]);
      WordOfMoreIsSmall(bits);
    }
  }

  lemma WordOfMore(bits: seq<bool>)
    requires bits != []
    ensures WordOf(bits) == Append(bits[0], WordOf(bits[1..]))
  {
  }

  lemma LimitHalves(n: nat)
    ensures Limit(n + 1) == Half(Limit(n))
  {
  }

  lemma WordOfMoreIsSmall(bits: seq<bool>)
    requires 0 < |bits| <= 31 && Below(WordOf(bits[1..]), Limit(31 - |bits[1..]|))
    ensures Below(WordOf(bits), Limit(31 - |bits|))
  {
    hide WordOf, Limit, Append, Half, Below;
    WordOfMore(bits);
    LimitHalves(31 - |bits|);
    AppendStaysSmall(bits[0], WordOf(bits[1..]), Limit(31 - |bits|));
  }

  lemma WordOfIsBounded(bits: seq<bool>)
    requires |bits| <= 31
    ensures Below(WordOf(bits), 0x8000_0000)
  {
    hide WordOf, Limit;
    WordOfIsSmall(bits);
    LimitIsBounded(31 - |bits|);
  }

  lemma {:induction false} WordOfIsInjective(x: seq<bool>, y: seq<bool>)
    requires |x| == |y| <= 32 && WordOf(x) == WordOf(y)
    ensures x == y
    decreases |x|
  {
    hide Append, Below;
    if x != [] {
      WordOfIsBounded(x[1..]);
      WordOfIsBounded(y[1..]);
      AppendIsInjective(x[0], WordOf(x[1..]), y[0], WordOf(y[1..]));
      WordOfIsInjective(x[1..], y[1..]);
      assert x == [x[0]] + x[1..] && y == [y[0]] + y[1..];
    }
  }

  lemma WordOfByte(b: Byte)
    ensures WordOf(ByteBits(b)) == b as bv32
  {
    hide Append, WordOf;
    var s := ByteBits(b);
    ByteFromBits(b);
    WordOfFour(s, 4);
    WordOfFour(s, 0);
    assert s[0..] == s;
  }

  lemma WordOfFour(s: seq<bool>, k: nat)
    requires k + 4 <= |s|
    ensures WordOf(s[k..]) == Append(s[k], Append(s[k + 1], Append(s[k + 2], Append(s[k + 3],
      if k + 4 == |s| then 0 else WordOf(s[k + 4..])))))
  {
    hide Append, WordOf;
    WordOfRest(s, k + 3);
    WordOfRest(s, k + 2);
    WordOfRest(s, k + 1);
    WordOfRest(s, k);
  }

  lemma WordOfRest(s: seq<bool>, k: nat)
    requires k < |s|
    ensures WordOf(s[k..]) == Append(s[k], if k + 1 == |s| then 0 else WordOf(s[k + 1..]))
  {
    hide Append;
    assert s[k..][1..] == s[k + 1..];
  }

  /** Up to 32 bits may be combined with the register before any step is taken. */
  lemma {:induction false} FeedAsWord(c: bv32, bits: seq<bool>)
    requires |bits| <= 32
    ensures Feed(c, bits) == Steps(Xor(c, WordOf(bits)), |bits|)
    decreases |bits|
  {
    hide Xor, Step, Append, BitWord, Below;
    if bits == [] {
      XorFacts(c, 0, 0);
    } else {
      var b, w := BitWord(bits[0]), WordOf(bits[1..]);
      FeedAsWord(Step(Xor(c, b)), bits[1..]);
      WordOfIsBounded(bits[1..]);
      StepOfDouble(w);
      AppendIs(bits[0], w);
      XorFacts(c, b, w << 1);
      StepXor(Xor(c, b), w << 1);
    }
  }

  lemma {:induction false} FeedConcat(c: bv32, a: seq<bool>, b: seq<bool>)
    ensures Feed(c, a + b) == Feed(Feed(c, a), b)
    decreases |a|
  {
    hide Xor, Step;
    if a == [] {
      assert a + b == b;
    } else {
      assert (a + b)[1..] == a[1..] + b;
      FeedConcat(Step(Xor(c, BitWord(a[0]))), a[1..], b);
    }
  }

  /** One turn of the loop of computeCrc feeds the eight bits of a byte. */
  lemma TableFeedsByte(c: bv32, b: Byte)
    ensures Feed(c, ByteBits(b)) == Xor(Entry(LowByte(Xor(c, b as bv32))), HighBytes(c))
  {
    hide Xor, Step, Entry, LowByte, HighBytes;
    FeedAsWord(c, ByteBits(b));
    WordOfByte(b);
    EightStepsByTable(Xor(c, b as bv32));
    ByteStaysLow(c, b);
  }

  lemma FeedByte(table: seq<bv32>, c: bv32, bytes: seq<Byte>)
    requires IsTable(table) && bytes != []
    ensures TableIndex(c, bytes[0]) < 256
    ensures Feed(c, Bits(bytes)) == Feed(NextRegister(table[TableIndex(c, bytes[0])], c), Bits(bytes[1..]))
  {
    hide Xor, Feed, Entry, EntryAt, LowByte, HighBytes, TableIndex, NextRegister, ByteBits;
    var b := bytes[0];
    IndexSelectsEntry(c, b);
    NextRegisterIs(table[TableIndex(c, b)], c);
    TableFeedsByte(c, b);
    FeedConcat(c, ByteBits(b), Bits(bytes[1..]));
  }

  lemma ChecksumIs(bytes: seq<Byte>, crc: bv32)
    requires Feed(ALL_ONES, Bits(bytes)) == Feed(crc, [])
    ensures Checksum(bytes) == crc ^ 0xFFFF_FFFF
  {
    hide Step;
  }

  // ---------------------------------------------------------------- start and complement

  /** The CRC of nothing: start and final complement cancel. */
  lemma ChecksumOfNothing()
    ensures Checksum([]) == 0
  {
  }

  function Inverted(bits: seq<bool>): (r: seq<bool>)
    ensures |r| == |bits|
  {
    if bits == [] then [] else [!bits[0]] + Inverted(bits[1..])
  }

  /** The word of n bits that are all set. */
  function Ones(n: nat): bv32 {
    if n == 0 then 0 else Append(true, Ones(n - 1))
  }

  lemma AppendInverts(b: bool, v: bv32, w: bv32)
    ensures Xor(Append(b, v), Append(!b, w)) == Append(true, Xor(v, w))
  {
    hide Xor, Append, BitWord;
    AppendIs(b, v);
    AppendIs(!b, w);
    AppendIs(true, Xor(v, w));
    ShiftLeftXor(v, w);
    OneBit(b);
    XorFour(BitWord(b), v << 1, BitWord(!b), w << 1);
  }

  lemma ShiftLeftXor(v: bv32, w: bv32)
    ensures Xor(v << 1, w << 1) == Xor(v, w) << 1
  {
    hide Xor;
    XorIs(v << 1, w << 1);
    XorIs(v, w);
    LeftShift(v, w);
  }

  lemma XorIs(a: bv32, b: bv32)
    ensures Xor(a, b) == a ^ b
  {
  }

  lemma LeftShift(v: bv32, w: bv32)
    ensures (v << 1) ^ (w << 1) == (v ^ w) << 1
  {
  }

  lemma OneBit(b: bool)
    ensures Xor(BitWord(b), BitWord(!b)) == BitWord(true)
  {
  }

  lemma XorCommutes(a: bv32, b: bv32)
    ensures Xor(a, b) == Xor(b, a)
  {
  }

  lemma XorFour(a: bv32, b: bv32, c: bv32, d: bv32)
    ensures Xor(Xor(a, b), Xor(c, d)) == Xor(Xor(a, c), Xor(b, d))
  {
    hide Xor;
    XorFacts(Xor(a, b), c, d);
    XorFacts(a, b, c);
    XorCommutes(b, c);
    XorFacts(a, c, b);
    XorFacts(Xor(a, c), b, d);
  }

  lemma {:induction false} InvertedWord(bits: seq<bool>)
    ensures Xor(WordOf(bits), WordOf(Inverted(bits))) == Ones(|bits|)
    decreases |bits|
  {
    if bits != [] {
      InvertedWord(bits[1..]);
      AppendInverts(bits[0], WordOf(bits[1..]), WordOf(Inverted(bits[1..])));
      hide Xor, Append;
      assert Inverted(bits)[0] == !bits[0] && Inverted(bits)[1..] == Inverted(bits[1..]);
    }
  }

  lemma OnesOf32()
    ensures Ones(32) == 0xFFFF_FFFF
  {
    assert Ones(4) == 0xF;
    assert Ones(8) == 0xFF;
    assert Ones(12) == 0xFFF;
    assert Ones(16) == 0xFFFF;
    assert Ones(20) == 0xF_FFFF;
    assert Ones(24) == 0xFF_FFFF;
    assert Ones(28) == 0xFFF_FFFF;
  }

  /** Starting from all ones is inverting the first 32 bits. */
  lemma StartInverts(bits: seq<bool>)
    requires |bits| == 32
    ensures Feed(0xFFFF_FFFF, bits) == Feed(0, Inverted(bits))
  {
    hide Step, Feed, WordOf, Ones, Inverted;
    var w, v := WordOf(bits), WordOf(Inverted(bits));
    FeedAsWord(0xFFFF_FFFF, bits);
    FeedAsWord(0, Inverted(bits));
    InvertedWord(bits);
    OnesOf32();
    ComplementMoves(w, v);
  }

  lemma ComplementMoves(w: bv32, v: bv32)
    requires Xor(w, v) == 0xFFFF_FFFF
    ensures Xor(0xFFFF_FFFF, w) == Xor(0, v)
  {
  }

  /** The CRC of at least four bytes is the complement of the remainder of the message with its first 32 bits inverted. */
  lemma ChecksumIsRemainder(bytes: seq<Byte>)
    requires |bytes| >= 4
    ensures Checksum(bytes) == 0xFFFF_FFFF ^ Feed(0, Inverted(Bits(bytes)[..32]) + Bits(bytes)[32..])
  {
    hide Feed, Bits, Inverted;
    RemainderOfBits(Bits(bytes));
    Complements(Feed(0xFFFF_FFFF, Bits(bytes)));
  }

  lemma RemainderOfBits(bits: seq<bool>)
    requires |bits| >= 32
    ensures Feed(0xFFFF_FFFF, bits) == Feed(0, Inverted(bits[..32]) + bits[32..])
  {
    hide Feed, Xor, Inverted;
    var head, tail := bits[..32], bits[32..];
    assert bits == head + tail;
    FeedConcat(0xFFFF_FFFF, head, tail);
    FeedConcat(0, Inverted(head), tail);
    StartInverts(head);
  }

  lemma Complements(c: bv32)
    ensures Xor(c, ALL_ONES) == 0xFFFF_FFFF ^ c
  {
  }

  // ---------------------------------------------------------------- the check value

  lemma FeedsByteTo(c: bv32, b: Byte, r0: bv32, r1: bv32, r2: bv32, r3: bv32, r4: bv32, r5: bv32, r6: bv32, r7: bv32, r8: bv32)
    requires r0 == Xor(c, b as bv32)
    requires Step(r0) == r1 && Step(r1) == r2 && Step(r2) == r3 && Step(r3) == r4
    requires Step(r4) == r5 && Step(r5) == r6 && Step(r6) == r7 && Step(r7) == r8
    ensures Feed(c, ByteBits(b)) == r8
  {
    assert |ByteBits(b)| == 8;
    hide Step, Xor, ByteBits, Feed;
    FeedAsWord(c, ByteBits(b));
    WordOfByte(b);
    EightSteps([r0, r1, r2, r3, r4, r5, r6, r7, r8]);
  }

  lemma DigitsOneToThree()
    ensures Feed(0xFFFF_FFFF, ByteBits(49)) == 0x7C23_1048
    ensures Feed(0x7C23_1048, ByteBits(50)) == 0xB0AC_BB32
    ensures Feed(0xB0AC_BB32, ByteBits(51)) == 0x77B7_9C2D
  {
    hide Feed, ByteBits;
    FeedsByteTo(0xFFFF_FFFF, 49, 0xFFFF_FFCE, 0x7FFF_FFE7, 0xD247_7CD3, 0x849B_3D49, 0xAFF5_1D84,
      0x57FA_8EC2, 0x2BFD_4761, 0xF846_2090, 0x7C23_1048);
    FeedsByteTo(0x7C23_1048, 50, 0x7C23_107A, 0x3E11_883D, 0xF2B0_473E, 0x7958_239F, 0xD114_92EF,
      0x8532_CA57, 0xAF21_E60B, 0xBA28_7025, 0xB0AC_BB32);
    FeedsByteTo(0xB0AC_BB32, 51, 0xB0AC_BB01, 0xB5EE_DEA0, 0x5AF7_6F50, 0x2D7B_B7A8, 0x16BD_DBD4,
      0x0B5E_EDEA, 0x05AF_76F5, 0xEF6F_385A, 0x77B7_9C2D);
  }

  lemma DigitsFourToSix()
    ensures Feed(0x77B7_9C2D, ByteBits(52)) == 0x641C_1F5C
    ensures Feed(0x641C_1F5C, ByteBits(53)) == 0x340A_C5E3
    ensures Feed(0x340A_C5E3, ByteBits(54)) == 0xF68D_2C9E
  {
    hide Feed, ByteBits;
    FeedsByteTo(0x77B7_9C2D, 52, 0x77B7_9C19, 0xD663_4D2C, 0x6B31_A696, 0x3598_D34B, 0xF774_EA85,
      0x9602_F662, 0x4B01_7B31, 0xC838_3EB8, 0x641C_1F5C);
    FeedsByteTo(0x641C_1F5C, 53, 0x641C_1F69, 0xDFB6_8C94, 0x6FDB_464A, 0x37ED_A325, 0xF64E_52B2,
      0x7B27_2959, 0xD02B_178C, 0x6815_8BC6, 0x340A_C5E3);
    FeedsByteTo(0x340A_C5E3, 54, 0x340A_C5D5, 0xF7BD_E1CA, 0x7BDE_F0E5, 0xD057_FB52, 0x682B_FDA9,
      0xD9AD_7DF4, 0x6CD6_BEFA, 0x366B_5F7D, 0xF68D_2C9E);
  }

  lemma DigitsSevenToNine()
    ensures Feed(0xF68D_2C9E, ByteBits(55)) == 0xAFFC_9660
    ensures Feed(0xAFFC_9660, ByteBits(56)) == 0x651F_2550
    ensures Feed(0x651F_2550, ByteBits(57)) == 0x340B_C6D9
  {
    hide Feed, ByteBits;
    FeedsByteTo(0xF68D_2C9E, 55, 0xF68D_2CA9, 0x96FE_1574, 0x4B7F_0ABA, 0x25BF_855D, 0xFF67_418E,
      0x7FB3_A0C7, 0xD261_5343, 0x8488_2A81, 0xAFFC_9660);
    FeedsByteTo(0xAFFC_9660, 56, 0xAFFC_9658, 0x57FE_4B2C, 0x2BFF_2596, 0x15FF_92CB, 0xE747_4A45,
      0x9E1B_2602, 0x4F0D_9301, 0xCA3E_4AA0, 0x651F_2550);
    FeedsByteTo(0x651F_2550, 57, 0x651F_2569, 0xDF37_1194, 0x6F9B_88CA, 0x37CD_C465, 0xF65E_6112,
      0x7B2F_3089, 0xD02F_1B64, 0x6817_8DB2, 0x340B_C6D9);
  }

  lemma FeedsFrom(bytes: seq<Byte>, k: nat, c: bv32, d: bv32)
    requires k < |bytes| && Feed(c, ByteBits(bytes[k])) == d
    ensures Feed(c, Bits(bytes[k..])) == Feed(d, Bits(bytes[k + 1..]))
  {
    hide Feed, ByteBits;
    assert bytes[k..][1..] == bytes[k + 1..];
    FeedConcat(c, ByteBits(bytes[k]), Bits(bytes[k + 1..]));
  }

  /** The check value that is published for this CRC: that of the characters "123456789". It fixes the polynomial, the
      start, the order of bits and the complement. */
  lemma CheckValue()
    ensures Checksum([49, 50, 51, 52, 53, 54, 55, 56, 57]) == 0xCBF4_3926
  {
    var bytes: seq<Byte> := [49, 50, 51, 52, 53, 54, 55, 56, 57];
    DigitsOneToThree();
    DigitsFourToSix();
    DigitsSevenToNine();
    hide Feed, Bits, ByteBits, Checksum;
    FeedsFrom(bytes, 0, 0xFFFF_FFFF, 0x7C23_1048);
    FeedsFrom(bytes, 1, 0x7C23_1048, 0xB0AC_BB32);
    FeedsFrom(bytes, 2, 0xB0AC_BB32, 0x77B7_9C2D);
    FeedsFrom(bytes, 3, 0x77B7_9C2D, 0x641C_1F5C);
    FeedsFrom(bytes, 4, 0x641C_1F5C, 0x340A_C5E3);
    FeedsFrom(bytes, 5, 0x340A_C5E3, 0xF68D_2C9E);
    FeedsFrom(bytes, 6, 0xF68D_2C9E, 0xAFFC_9660);
    FeedsFrom(bytes, 7, 0xAFFC_9660, 0x651F_2550);
    FeedsFrom(bytes, 8, 0x651F_2550, 0x340B_C6D9);
    NoBitsLeft(bytes, 0x340B_C6D9);
  }

  lemma NoBitsLeft(bytes: seq<Byte>, c: bv32)
    requires Feed(0xFFFF_FFFF, Bits(bytes[0..])) == Feed(c, Bits(bytes[|bytes|..]))
    ensures Checksum(bytes) == 0xFFFF_FFFF ^ c
  {
    assert bytes[0..] == bytes;
    assert Feed(c, []) == c;
    Complements(c);
  }

  // ---------------------------------------------------------------- error detection

  /** Feeding the same bits into different registers leaves them different. */
  lemma {:induction false} FeedIsInjectiveInState(c: bv32, d: bv32, bits: seq<bool>)
    requires Feed(c, bits) == Feed(d, bits)
    ensures c == d
    decreases |bits|
  {
    hide Xor, Step;
    if bits != [] {
      var b := BitWord(bits[0]);
      FeedIsInjectiveInState(Step(Xor(c, b)), Step(Xor(d, b)), bits[1..]);
      StepIsInjective(Xor(c, b), Xor(d, b));
      XorCancels(c, d, b);
    }
  }

  /** Feeding at most 32 different bits into the same register leaves different registers. */
  lemma FeedIsInjectiveInBits(c: bv32, x: seq<bool>, y: seq<bool>)
    requires |x| == |y| <= 32 && Feed(c, x) == Feed(c, y)
    ensures x == y
  {
    hide Xor, Step;
    FeedAsWord(c, x);
    FeedAsWord(c, y);
    StepsAreInjective(Xor(c, WordOf(x)), Xor(c, WordOf(y)), |x|);
    XorCancels(WordOf(x), WordOf(y), c);
    WordOfIsInjective(x, y);
  }

  /** A change confined to 32 consecutive bits changes the register. */
  lemma BurstChangesRegister(c: bv32, before: seq<bool>, x: seq<bool>, y: seq<bool>, after: seq<bool>)
    requires |x| == |y| <= 32 && x != y
    ensures Feed(c, before + x + after) != Feed(c, before + y + after)
  {
    hide Xor, Step;
    FeedConcat(c, before + x, after);
    FeedConcat(c, before + y, after);
    FeedConcat(c, before, x);
    FeedConcat(c, before, y);
    if Feed(c, before + x + after) == Feed(c, before + y + after) {
      FeedIsInjectiveInState(Feed(c, before + x), Feed(c, before + y), after);
      FeedIsInjectiveInBits(Feed(c, before), x, y);
    }
  }

  lemma {:induction false} BitsConcat(a: seq<Byte>, b: seq<Byte>)
    ensures Bits(a + b) == Bits(a) + Bits(b)
    decreases |a|
  {
    hide ByteBits;
    if a == [] {
      assert a + b == b;
    } else {
      assert (a + b)[1..] == a[1..] + b;
      BitsConcat(a[1..], b);
    }
  }

  lemma {:induction false} BitsAreInjective(a: seq<Byte>, b: seq<Byte>)
    requires |a| == |b| && Bits(a) == Bits(b)
    ensures a == b
    decreases |a|
  {
    if a != [] {
      BitsOfFirst(a);
      BitsOfFirst(b);
      ByteBitsAreInjective(a[0], b[0]);
      BitsAreInjective(a[1..], b[1..]);
      assert a == [a[0]] + a[1..] && b == [b[0]] + b[1..];
    }
  }

  lemma BitsOfFirst(a: seq<Byte>)
    requires a != []
    ensures Bits(a)[..8] == ByteBits(a[0]) && Bits(a)[8..] == Bits(a[1..])
  {
  }

  lemma ByteBitsAreInjective(a: Byte, b: Byte)
    requires ByteBits(a) == ByteBits(b)
    ensures a == b
  {
    hide ByteBits, WordOf;
    WordOfByte(a);
    WordOfByte(b);
    assert (a as bv32) == (b as bv32);
  }

  /** Every burst of at most 32 bits is detected, wherever it starts within a byte. */
  lemma BurstsAreDetected(a: seq<Byte>, b: seq<Byte>, i: nat)
    requires |a| == |b| && a != b
    requires forall k :: 0 <= k < |Bits(a)| && (k < i || k >= i + 32) ==> Bits(a)[k] == Bits(b)[k]
    ensures Checksum(a) != Checksum(b)
  {
    hide Xor, Step, ByteBits, Feed, Bits;
    var p, q := Bits(a), Bits(b);
    var lo := if i <= |p| then i else |p|;
    var hi := if i + 32 <= |p| then i + 32 else |p|;
    assert p == p[..lo] + p[lo..hi] + p[hi..];
    assert q == p[..lo] + q[lo..hi] + p[hi..];
    if p == q { BitsAreInjective(a, b); }
    BurstChangesRegister(ALL_ONES, p[..lo], p[lo..hi], q[lo..hi], p[hi..]);
    XorCancels(Feed(ALL_ONES, p), Feed(ALL_ONES, q), ALL_ONES);
  }

  /** In particular two sequences that differ only inside four consecutive bytes have different checksums. */
  lemma FourByteErrorsAreDetected(before: seq<Byte>, x: seq<Byte>, y: seq<Byte>, after: seq<Byte>)
    requires |x| == |y| <= 4 && x != y
    ensures Checksum(before + x + after) != Checksum(before + y + after)
  {
    hide Xor, Step, ByteBits, Feed, Bits;
    BitsConcat(before + x, after);
    BitsConcat(before, x);
    BitsConcat(before + y, after);
    BitsConcat(before, y);
    if Bits(x) == Bits(y) { BitsAreInjective(x, y); }
    BurstChangesRegister(ALL_ONES, Bits(before), Bits(x), Bits(y), Bits(after));
    XorCancels(Feed(ALL_ONES, Bits(before + x + after)), Feed(ALL_ONES, Bits(before + y + after)), ALL_ONES);
  }
}

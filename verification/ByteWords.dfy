/** Four-byte integers, most significant byte first (section 2.1 of RFC 2083). */
module ByteWords {

  /** A four-byte integer, most significant byte first. */
  function ReadInt(b: seq<bv8>): bv32
    requires |b| == 4
  {
    ((b[0] as bv32) << 24) | ((b[1] as bv32) << 16) | ((b[2] as bv32) << 8) | (b[3] as bv32)
  }

  function Value(x: bv32): nat {
    x as nat
  }

  function Size(b: seq<bv8>): nat
    requires |b| == 4
  {
    Value(ReadInt(b))
  }

  function Extend(b: bv8): bv32 {
    b as bv32
  }

  /** A word with one more byte below it. */
  function Push(x: bv32, b: bv8): bv32 {
    (x << 8) | Extend(b)
  }

  predicate Small(x: bv32) {
    x <= 0xFF_FFFF
  }

  /** The integer is the base-256 value of its bytes. */
  lemma SizeIsBase256(b: seq<bv8>)
    requires |b| == 4
    ensures Size(b) == ((b[0] as nat * 256 + b[1] as nat) * 256 + b[2] as nat) * 256 + b[3] as nat
  {
    ReadIntPushes(b);
    PushesStaySmall(b[0], b[1], b[2]);
    hide Push, ReadInt, Extend, Value, Small;
    ExtendKeepsValue(b[0]);
    PushIsBase256(Extend(b[0]), b[1]);
    PushIsBase256(Push(Extend(b[0]), b[1]), b[2]);
    PushIsBase256(Push(Push(Extend(b[0]), b[1]), b[2]), b[3]);
  }

  lemma ReadIntPushes(b: seq<bv8>)
    requires |b| == 4
    ensures ReadInt(b) == Push(Push(Push(Extend(b[0]), b[1]), b[2]), b[3])
  {
  }

  lemma PushesStaySmall(a: bv8, b: bv8, c: bv8)
    ensures Small(Extend(a)) && Small(Push(Extend(a), b)) && Small(Push(Push(Extend(a), b), c))
  {
  }

  lemma ExtendKeepsValue(b: bv8)
    ensures Value(Extend(b)) == b as nat
  {
  }

  lemma PushIsBase256(x: bv32, b: bv8)
    requires Small(x)
    ensures Value(Push(x, b)) == Value(x) * 256 + b as nat
  {
    SmallIs(x);
    hide *;
    ShiftAndByte(x, b);
    ValueOfPush(x, b);
    ValueIs(x);
  }

  lemma SmallIs(x: bv32)
    requires Small(x)
    ensures x <= 0xFF_FFFF
  {
  }

  lemma ValueIs(x: bv32)
    ensures Value(x) == x as nat
  {
  }

  lemma ValueOfPush(x: bv32, b: bv8)
    ensures Value(Push(x, b)) == ((x << 8) | (b as bv32)) as nat
  {
  }

  lemma ShiftAndByte(x: bv32, b: bv8)
    requires x <= 0xFF_FFFF
    ensures ((x << 8) | (b as bv32)) as nat == x as nat * 256 + b as nat
  {
  }

  /** The integer as bytes, as appendIntToVector stores it. */
  function IntBytes(number: bv32): (b: seq<bv8>)
    ensures |b| == 4
  {
    [((number >> 24) & 0xFF) as bv8, ((number >> 16) & 0xFF) as bv8, ((number >> 8) & 0xFF) as bv8, (number & 0xFF) as bv8]
  }

  lemma ReadIntBytes(number: bv32)
    ensures ReadInt(IntBytes(number)) == number
  {
  }
}

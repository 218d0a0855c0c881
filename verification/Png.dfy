/**
 The checksum comment that DumpRenderTree splices into a PNG stream, and what the stream is as a list of chunks
 (sections 3.1, 3.2 and 4.2.7 of RFC 2083).
 */
module Png {
  import opened Prelude
  import opened ByteWords
  import opened Crc

  // ---------------------------------------------------------------- chunks

  /** The four fields of a chunk as bytes. */
  datatype Chunk = Chunk(length: seq<Byte>, kind: seq<Byte>, data: seq<Byte>, crc: seq<Byte>)

  const SIGNATURE: seq<Byte> := [0x89, 0x50, 0x4E, 0x47, 0x0D, 0x0A, 0x1A, 0x0A]
  const IHDR: seq<Byte> := [0x49, 0x48, 0x44, 0x52]
  const TEXT: seq<Byte> := [0x74, 0x45, 0x58, 0x74]
  const KEYWORD: seq<Byte> := [0x63, 0x68, 0x65, 0x63, 0x6B, 0x73, 0x75, 0x6D]  // "checksum"

  /** The bytes are the codes of the characters. */
  predicate Spells(b: seq<Byte>, s: string) {
    |b| == |s| && forall i :: 0 <= i < |s| ==> b[i] as int == s[i] as int
  }

  /** The constants are those of the standard: the signature of section 3.1, and the names in ASCII. */
  lemma NamesAreAscii()
    ensures SIGNATURE == [137, 80, 78, 71, 13, 10, 26, 10]
    ensures Spells(IHDR, "IHDR") && Spells(TEXT, "tEXt") && Spells(KEYWORD, "checksum")
  {
  }

  /** The chunk at the start of a stream, if there is a complete one. */
  function FirstChunk(s: seq<Byte>): Option<Chunk> {
    if |s| < 12 || ReadInt(s[..4]) > 0x7FFF_FFFF || |s| < 12 + Size(s[..4]) then None
    else
      var n := Size(s[..4]);
      Some(Chunk(s[..4], s[4..8], s[8..8 + n], s[8 + n..12 + n]))
  }

  function ChunkLength(c: Chunk): nat {
    |c.length| + |c.kind| + |c.data| + |c.crc|
  }

  function ParseChunks(s: seq<Byte>): Option<seq<Chunk>>
    decreases |s|
  {
    if s == [] then Some([])
    else match FirstChunk(s)
      case None => None
      case Some(c) =>
        match ParseChunks(s[ChunkLength(c)..])
        case None => None
        case Some(cs) => Some([c] + cs)
  }

  /** A stream is the signature followed by chunks. */
  function ParsePng(s: seq<Byte>): Option<seq<Chunk>> {
    if SIGNATURE <= s then ParseChunks(s[8..]) else None
  }

  function ChunkBytes(c: Chunk): seq<Byte> {
    c.length + c.kind + c.data + c.crc
  }

  function Serialize(cs: seq<Chunk>): seq<Byte> {
    if cs == [] then [] else ChunkBytes(cs[0]) + Serialize(cs[1..])
  }

  function SerializePng(cs: seq<Chunk>): seq<Byte> {
    SIGNATURE + Serialize(cs)
  }

  /** The length field counts the data bytes and the CRC field is the CRC of the type and the data. */
  ghost predicate ValidChunk(c: Chunk) {
    && |c.length| == |c.kind| == |c.crc| == 4
    && Size(c.length) == |c.data|
    && ReadInt(c.crc) == Checksum(c.kind + c.data)
  }

  /** The stream starts with an IHDR chunk of 13 data bytes. */
  ghost predicate StartsWithHeader(cs: seq<Chunk>) {
    cs != [] && cs[0].kind == IHDR && |cs[0].data| == 13
  }

  // ---------------------------------------------------------------- what is inserted, and where

  const TEXT_COMMENT_PREFIX: seq<Byte> := [0x00, 0x00, 0x00, 0x29] + TEXT + KEYWORD + [0x00]
  const CHECKSUM_LENGTH: nat := 32

  /** The bytes convertChecksumToPNGComment appends. */
  function Comment(checksum: seq<Byte>): seq<Byte>
    requires |checksum| >= CHECKSUM_LENGTH
  {
    TEXT_COMMENT_PREFIX + checksum[..32] + IntBytes(Checksum(TEXT_COMMENT_PREFIX[4..] + checksum[..32]))
  }

  /** The comment as a chunk: the keyword, a zero byte and the text. */
  function CommentChunk(checksum: seq<Byte>): Chunk
    requires |checksum| >= CHECKSUM_LENGTH
  {
    var data := KEYWORD + [0x00] + checksum[..32];
    Chunk([0x00, 0x00, 0x00, 0x29], TEXT, data, IntBytes(Checksum(TEXT + data)))
  }

  const INSERT_OFFSET: nat := 8 + 25

  function Spliced(data: seq<Byte>, checksum: seq<Byte>): seq<Byte>
    requires |data| >= INSERT_OFFSET && |checksum| >= CHECKSUM_LENGTH
  {
    data[..INSERT_OFFSET] + Comment(checksum) + data[INSERT_OFFSET..]
  }

  // ---------------------------------------------------------------- the code

  /** A growable byte vector. */
  class ByteVector {
    var bytes: seq<Byte>

    constructor ()
      ensures bytes == []
    {
      bytes := [];
    }

    method Grow(size: nat)
      requires size >= |bytes|
      modifies this
      ensures |bytes| == size && old(bytes) <= bytes
    {
      bytes := bytes + seq(size - |bytes|, _ => 0 as Byte);
    }

    method Append(s: seq<Byte>)
      modifies this
      ensures bytes == old(bytes) + s
    {
      bytes := bytes + s;
    }
  }

  method AppendIntToVector(number: bv32, vector: ByteVector)
    modifies vector
    ensures vector.bytes == old(vector.bytes) + IntBytes(number)
  {
    var offset := |vector.bytes|;
    vector.Grow(offset + 4);
    vector.bytes := vector.bytes[offset := ((number >> 24) & 0xFF) as bv8];
    vector.bytes := vector.bytes[offset + 1 := ((number >> 16) & 0xFF) as bv8];
    vector.bytes := vector.bytes[offset + 2 := ((number >> 8) & 0xFF) as bv8];
    vector.bytes := vector.bytes[offset + 3 := (number & 0xFF) as bv8];
    assert vector.bytes[offset..] == IntBytes(number);
  }

  method ConvertChecksumToPNGComment(checksum: seq<Byte>, bytesToAdd: ByteVector, statics: CrcTable)
    requires |checksum| >= CHECKSUM_LENGTH && statics.Valid()
    modifies bytesToAdd, statics, statics.crcTable
    ensures statics.Valid()
    ensures bytesToAdd.bytes == old(bytesToAdd.bytes) + Comment(checksum)
  {
    hide Checksum, IntBytes;
    bytesToAdd.Append(TEXT_COMMENT_PREFIX);
    bytesToAdd.Append(checksum[..32]);
    var dataToCrc := new ByteVector();
    dataToCrc.Append(TEXT_COMMENT_PREFIX[4..]);
    dataToCrc.Append(checksum[..32]);
    assert dataToCrc.bytes == TEXT_COMMENT_PREFIX[4..] + checksum[..32];
    var crc32 := statics.ComputeCrc(dataToCrc.bytes);
    AppendIntToVector(crc32, bytesToAdd);
    assert bytesToAdd.bytes[|old(bytesToAdd.bytes)|..] == Comment(checksum);
  }

  function Min(a: nat, b: nat): nat {
    if a < b then a else b
  }

  /** Standard output: it takes the bytes it has room for and then takes no more. */
  class Stdout {
    var written: seq<Byte>
    var room: nat

    method FWrite(data: seq<Byte>) returns (n: nat)
      modifies this
      ensures n == Min(|data|, old(room)) && room == old(room) - n
      ensures written == old(written) + data[..n]
    {
      n := Min(|data|, room);
      written := written + data[..n];
      room := room - n;
    }
  }

  /** What is left in a sink that had room for `room` bytes when s is written to it. */
  function Accepted(s: seq<Byte>, room: nat): seq<Byte> {
    s[..Min(|s|, room)]
  }

  /** The write loop of printPNG. */
  method WriteInChunks(data: seq<Byte>, stdout: Stdout)
    modifies stdout
    ensures stdout.written == old(stdout.written) + Accepted(data, old(stdout.room))
  {
    hide Accepted;
    AcceptedConcat([], [], stdout.room);
    var bytesToWriteInOneChunk := 0x8000;
    var rest := data;
    ghost var sent: seq<Byte> := [];
    ghost var room := stdout.room;
    assert Accepted(sent, room) == [] && stdout.written == stdout.written + [];
    while |rest| != 0
      invariant sent + rest == data
      invariant stdout.written == old(stdout.written) + Accepted(sent, room)
      invariant stdout.room == room - Min(|sent|, room)
      decreases |rest|
    {
      var bytesToWriteInThisChunk := Min(|rest|, bytesToWriteInOneChunk);
      ghost var chunk := rest[..bytesToWriteInThisChunk];
      var bytesWritten := stdout.FWrite(rest[..bytesToWriteInThisChunk]);
      AcceptedConcat(sent, chunk, room);
      assert stdout.written == old(stdout.written) + (Accepted(sent, room) + chunk[..bytesWritten]);
      sent, rest := sent + chunk, rest[bytesToWriteInThisChunk..];
      assert sent + rest == data;
      if bytesWritten != bytesToWriteInThisChunk {
        AcceptedFull(sent, rest, room);
        break;
      }
    }
    if |rest| == 0 { assert sent == data; }
  }

  /** printPNG: the announced Content-Length is the result; the bytes written are the spliced stream, up to the room
      there is. */
  method PrintPNG(data: seq<Byte>, checksum: seq<Byte>, stdout: Stdout, statics: CrcTable) returns (contentLength: nat)
    requires |data| >= INSERT_OFFSET && |checksum| >= CHECKSUM_LENGTH && statics.Valid()
    modifies stdout, statics, statics.crcTable
    ensures statics.Valid()
    ensures contentLength == |Spliced(data, checksum)|
    ensures stdout.written == old(stdout.written) + Accepted(Spliced(data, checksum), old(stdout.room))
    ensures old(stdout.room) >= contentLength ==>
      stdout.written == old(stdout.written) + Spliced(data, checksum) && |stdout.written| == |old(stdout.written)| + contentLength
  {
    hide Comment;
    var bytesToAdd := new ByteVector();
    ConvertChecksumToPNGComment(checksum, bytesToAdd, statics);
    contentLength := |data| + |bytesToAdd.bytes|;
    var insertOffset := OffsetAfterIHDRChunk(data);
    ghost var room := stdout.room;
    var _ := stdout.FWrite(data[..insertOffset]);
    var _ := stdout.FWrite(bytesToAdd.bytes);
    WriteInChunks(data[insertOffset..], stdout);
    AcceptedConcat(data[..insertOffset], Comment(checksum), room);
    AcceptedConcat(data[..insertOffset] + Comment(checksum), data[insertOffset..], room);
  }

  method OffsetAfterIHDRChunk(data: seq<Byte>) returns (offset: nat)
    ensures offset == INSERT_OFFSET
  {
    var pngHeaderLength, pngIHDRChunkLength := 8, 25;
    offset := pngHeaderLength + pngIHDRChunkLength;
  }

  /** A sink with enough room takes everything. */
  lemma AcceptedAll(s: seq<Byte>, room: nat)
    requires room >= |s|
    ensures Accepted(s, room) == s
  {
  }

  /** Writing one sequence after another. */
  lemma AcceptedConcat(a: seq<Byte>, b: seq<Byte>, room: nat)
    ensures Accepted(a + b, room) == Accepted(a, room) + b[..Min(|b|, room - Min(|a|, room))]
    ensures |Accepted(a, room)| == Min(|a|, room)
    ensures Min(|a|, room) + Min(|b|, room - Min(|a|, room)) == Min(|a + b|, room)
  {
  }

  /** Once a write has been cut short nothing more is accepted. */
  lemma AcceptedFull(a: seq<Byte>, b: seq<Byte>, room: nat)
    requires room <= |a|
    ensures Accepted(a + b, room) == Accepted(a, room)
  {
  }

  // ---------------------------------------------------------------- the spliced stream

  lemma CommentSize()
    ensures ReadInt([0x00, 0x00, 0x00, 0x29]) == 41 && Size([0x00, 0x00, 0x00, 0x29]) == 41
  {
  }

  /** The inserted chunk is valid and its bytes are the comment. */
  lemma CommentIsValidChunk(checksum: seq<Byte>)
    requires |checksum| >= CHECKSUM_LENGTH
    ensures ValidChunk(CommentChunk(checksum)) && |CommentChunk(checksum).data| == 41
    ensures ChunkBytes(CommentChunk(checksum)) == Comment(checksum)
  {
    hide Checksum, IntBytes, ReadInt;
    var c := CommentChunk(checksum);
    CommentSize();
    ReadIntBytes(Checksum(c.kind + c.data));
    assert TEXT_COMMENT_PREFIX[4..] + checksum[..32] == c.kind + c.data;
  }

  /** A chunk that says its own length is read back from the start of any stream. */
  lemma FirstChunkOf(c: Chunk, rest: seq<Byte>)
    requires |c.length| == |c.kind| == |c.crc| == 4 && ReadInt(c.length) <= 0x7FFF_FFFF && Size(c.length) == |c.data|
    ensures FirstChunk(ChunkBytes(c) + rest) == Some(c)
    ensures (ChunkBytes(c) + rest)[ChunkLength(c)..] == rest
  {
    hide ReadInt, Size;
    var s := ChunkBytes(c) + rest;
    assert s[..4] == c.length && s[4..8] == c.kind;
    var n := |c.data|;
    assert s[8..8 + n] == c.data && s[8 + n..12 + n] == c.crc;
  }

  /** What FirstChunk reads are the bytes at the start. */
  lemma FirstChunkIsPrefix(s: seq<Byte>)
    requires FirstChunk(s).Some?
    ensures var c := FirstChunk(s).value;
      && ChunkLength(c) == 12 + |c.data| <= |s| && ChunkBytes(c) + s[ChunkLength(c)..] == s
      && |c.length| == |c.kind| == |c.crc| == 4 && ReadInt(c.length) <= 0x7FFF_FFFF && Size(c.length) == |c.data|
  {
    hide ReadInt, Size;
  }

  /** Parsing loses nothing: the chunks written one after another are the stream. */
  lemma {:induction false} SerializeParsed(s: seq<Byte>)
    requires ParseChunks(s).Some?
    ensures Serialize(ParseChunks(s).value) == s
    decreases |s|
  {
    hide ReadInt, Size, FirstChunk, ChunkBytes, ChunkLength;
    if s != [] {
      var c := FirstChunk(s).value;
      FirstChunkIsPrefix(s);
      SerializeParsed(s[ChunkLength(c)..]);
      assert ([c] + ParseChunks(s[ChunkLength(c)..]).value)[1..] == ParseChunks(s[ChunkLength(c)..]).value;
    }
  }

  lemma ParseAfterChunk(c: Chunk, rest: seq<Byte>)
    requires |c.length| == |c.kind| == |c.crc| == 4 && ReadInt(c.length) <= 0x7FFF_FFFF && Size(c.length) == |c.data|
    requires ParseChunks(rest).Some?
    ensures ParseChunks(ChunkBytes(c) + rest) == Some([c] + ParseChunks(rest).value)
  {
    hide ReadInt, Size, FirstChunk;
    FirstChunkOf(c, rest);
  }

  /** The header chunk ends where the comment is inserted. */
  lemma HeaderSplits(data: seq<Byte>)
    requires ParsePng(data).Some? && StartsWithHeader(ParsePng(data).value)
    ensures |data| >= INSERT_OFFSET
    ensures var cs := ParsePng(data).value;
      && data[..INSERT_OFFSET] == SIGNATURE + ChunkBytes(cs[0])
      && ParseChunks(data[INSERT_OFFSET..]) == Some(cs[1..])
      && FirstChunk(data[8..]) == Some(cs[0])
  {
    hide ReadInt, Size, FirstChunk;
    var s := data[8..];
    FirstChunkIsPrefix(s);
    var cs := ParsePng(data).value;
    assert ChunkLength(cs[0]) == 25 && s[25..] == data[33..];
    assert data == data[..8] + s && s[..25] == ChunkBytes(cs[0]);
    assert data[..33] == data[..8] + s[..25];
  }

  lemma CommentIsNamed(checksum: seq<Byte>)
    requires |checksum| >= CHECKSUM_LENGTH
    ensures Spells(CommentChunk(checksum).kind, "tEXt")
    ensures Spells(CommentChunk(checksum).data[..8], "checksum") && CommentChunk(checksum).data[8] == 0
  {
    NamesAreAscii();
    hide Checksum, IntBytes, Spells;
    assert CommentChunk(checksum).data[..8] == KEYWORD;
  }

  /** For every PNG stream that starts with its header chunk: the spliced stream parses as the same chunks with one
      valid tEXt chunk of 41 data bytes right after the header, which holds the checksum under the keyword
      "checksum"; without that chunk it is the input again. */
  lemma SplicedStreamHasComment(data: seq<Byte>, checksum: seq<Byte>)
    requires ParsePng(data).Some? && StartsWithHeader(ParsePng(data).value) && |checksum| >= CHECKSUM_LENGTH
    ensures |data| >= INSERT_OFFSET
    ensures var cs := ParsePng(data).value; var text := CommentChunk(checksum);
      && ParsePng(Spliced(data, checksum)) == Some([cs[0], text] + cs[1..])
      && ValidChunk(text) && text.kind == TEXT && |text.data| == 41 && text.data == KEYWORD + [0] + checksum[..32]
      && Spells(text.kind, "tEXt") && Spells(text.data[..8], "checksum") && text.data[8] == 0
      && SerializePng([cs[0]] + cs[1..]) == data
  {
    hide Checksum, ReadInt, Size, FirstChunk, IntBytes, Comment, Spells;
    var cs := ParsePng(data).value;
    var text := CommentChunk(checksum);
    CommentIsNamed(checksum);
    HeaderSplits(data);
    CommentIsValidChunk(checksum);
    CommentSize();
    FirstChunkIsPrefix(data[8..]);
    var rest := data[INSERT_OFFSET..];
    ParseAfterChunk(text, rest);
    ParseAfterChunk(cs[0], ChunkBytes(text) + rest);
    var out := Spliced(data, checksum);
    assert out[8..] == ChunkBytes(cs[0]) + (ChunkBytes(text) + rest);
    assert [cs[0]] + ([text] + cs[1..]) == [cs[0], text] + cs[1..];
    SerializeParsed(data[8..]);
    assert [cs[0]] + cs[1..] == cs;
    assert data == data[..8] + data[8..];
  }
}

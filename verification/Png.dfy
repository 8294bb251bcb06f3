/**
 * Writing a PNG image with its pixel checksum: a tEXt chunk is built and spliced into the
 * chunk stream right after the header chunk.
 */
module Png {
  import opened Binary
  import opened Wrappers
  import opened Numerals
  import opened Crc

  type Bytes = seq<Byte>

  // ----- the file format, sections 3.1 to 3.4 of RFC 2083 -----

  /** Four bytes, most significant first. */
  function BigEndian(n: nat): (r: Bytes)
    requires n < 0x1_0000_0000
    ensures |r| == 4
  {
    [n / 0x100_0000, n / 0x1_0000 % 256, n / 0x100 % 256, n % 256]
  }

  function FromBigEndian(s: Bytes): nat
    requires |s| == 4
  {
    (((s[0] as int) * 256 + s[1] as int) * 256 + s[2] as int) * 256 + s[3] as int
  }

  lemma BigEndianInverse(n: nat)
    requires n < 0x1_0000_0000
    ensures FromBigEndian(BigEndian(n)) == n
  {
    assert n / 0x100 == 256 * (n / 0x1_0000) + n / 0x100 % 256;
    assert n / 0x1_0000 == 256 * (n / 0x100_0000) + n / 0x1_0000 % 256;
  }

  /** The bytes go from the highest power of 256 to the lowest. */
  lemma HighestByteFirst(n: nat, k: nat)
    requires n < 0x1_0000_0000 && k < 4
    ensures BigEndian(n)[k] == n / Pow2(24 - 8 * k) % 256
  {
    PowBytes();
    assert Pow2(0) == 1;
  }

  datatype Chunk = Chunk(kind: Bytes, data: Bytes, crc: Bytes)

  ghost predicate WellSized(c: Chunk) {
    |c.kind| == 4 && |c.crc| == 4 && |c.data| < 0x1_0000_0000
  }

  function Encode(c: Chunk): Bytes
    requires |c.data| < 0x1_0000_0000
  {
    BigEndian(|c.data|) + c.kind + c.data + c.crc
  }

  /** The check of a chunk covers its type and data, not its length. */
  function CheckOf(kind: Bytes, data: Bytes): (r: Bytes)
    ensures |r| == 4
  {
    var crc := BitSerialCrc(kind + data);
    BitsNatBound(crc);
    PowThirtyTwo();
    BigEndian(BitsNat(crc))
  }

  /** Read as a number, the check of a chunk is that of its type followed by its data. */
  lemma CheckReadsBack(kind: Bytes, data: Bytes)
    ensures FromBigEndian(CheckOf(kind, data)) == BitsNat(BitSerialCrc(kind + data))
  {
    var crc := BitSerialCrc(kind + data);
    BitsNatBound(crc);
    PowThirtyTwo();
    BigEndianInverse(BitsNat(crc));
  }

  lemma PowThirtyTwo()
    ensures Pow2(32) == 0x1_0000_0000
  {
    PowBytes();
  }

  /** The chunks of a stream; None when it ends inside a chunk. */
  function ParseChunks(s: Bytes): Option<seq<Chunk>>
    decreases |s|
  {
    if s == [] then Some([])
    else if |s| < 12 then None
    else
      var n := FromBigEndian(s[..4]);
      if |s| < 12 + n then None
      else
        match ParseChunks(s[12 + n..])
        case None => None
        case Some(rest) => Some([Chunk(s[4..8], s[8..8 + n], s[8 + n..12 + n])] + rest)
  }

  function TextBytes(s: string): Bytes {
    seq(|s|, i requires 0 <= i < |s| => s[i] as int % 256)
  }

  /** Bytes read as text, a character for each. */
  function TextOf(s: Bytes): string {
    seq(|s|, i requires 0 <= i < |s| => s[i] as char)
  }

  const SIGNATURE: Bytes := [137, 80, 78, 71, 13, 10, 26, 10]
  const IHDR: Bytes := [73, 72, 68, 82]
  const TEXT: Bytes := [116, 69, 88, 116]
  const KEYWORD: Bytes := [99, 104, 101, 99, 107, 115, 117, 109, 0]

  /** The chunks of a PNG file; the first one is the 13-byte header. */
  function ParsePng(s: Bytes): Option<seq<Chunk>> {
    if |s| < 8 || s[..8] != SIGNATURE then None
    else
      match ParseChunks(s[8..])
      case None => None
      case Some(chunks) =>
        if chunks != [] && chunks[0].kind == IHDR && |chunks[0].data| == 13 then Some(chunks) else None
  }

  lemma ParseEncoded(c: Chunk, s: Bytes)
    requires WellSized(c)
    ensures ParseChunks(Encode(c) + s)
            == match ParseChunks(s) case None => None case Some(rest) => Some([c] + rest)
  {
    var n := |c.data|;
    var t := Encode(c) + s;
    BigEndianInverse(n);
    assert t[..4] == BigEndian(n);
    assert t[4..8] == c.kind;
    assert t[8..8 + n] == c.data;
    assert t[8 + n..12 + n] == c.crc;
    assert t[12 + n..] == s;
  }

  lemma ParsedHead(s: Bytes)
    requires ParseChunks(s).Some? && s != []
    ensures var c := ParseChunks(s).value[0];
            && WellSized(c) && |s| >= 12 + |c.data| && s[..12 + |c.data|] == Encode(c)
            && ParseChunks(s[12 + |c.data|..]) == Some(ParseChunks(s).value[1..])
  {
    var n := FromBigEndian(s[..4]);
    assert n < 0x1_0000_0000;
    BigEndianUnique(s[..4]);
    FourParts(s, 4, 8, 8 + n, 12 + n);
  }

  lemma FourParts(s: Bytes, a: nat, b: nat, c: nat, d: nat)
    requires a <= b <= c <= d <= |s|
    ensures s[..d] == s[..a] + s[a..b] + s[b..c] + s[c..d]
  {
    assert s[..b] == s[..a] + s[a..b];
    assert s[..c] == s[..b] + s[b..c];
    assert s[..d] == s[..c] + s[c..d];
  }

  lemma BigEndianUnique(s: Bytes)
    requires |s| == 4
    ensures FromBigEndian(s) < 0x1_0000_0000 && BigEndian(FromBigEndian(s)) == s
  {
    var n := FromBigEndian(s);
    var a, b, c := s[0] as int, s[1] as int, s[2] as int;
    assert n / 256 == (a * 256 + b) * 256 + c;
    assert n / 0x1_0000 == a * 256 + b;
    assert n / 0x100_0000 == a;
  }

  // ----- the comment chunk -----

  function CommentChunk(checksum: Bytes): Chunk {
    Chunk(TEXT, KEYWORD + checksum, CheckOf(TEXT, KEYWORD + checksum))
  }

  /** Where the comment goes: after the signature and the 25 bytes of the header chunk. */
  const INSERT_OFFSET: nat := 33

  function Spliced(data: Bytes, checksum: Bytes): Bytes
    requires |data| >= INSERT_OFFSET && |checksum| == 32
  {
    data[..INSERT_OFFSET] + Encode(CommentChunk(checksum)) + data[INSERT_OFFSET..]
  }

  /**
   * For every PNG file, the printed bytes parse to the same chunks with one more right after the
   * header, a text chunk of 41 data bytes with a valid check that holds the checksum.
   */
  lemma SpliceInsertsComment(data: Bytes, checksum: Bytes)
    requires ParsePng(data).Some? && |checksum| == 32
    ensures |data| >= INSERT_OFFSET
    ensures var chunks, comment := ParsePng(data).value, CommentChunk(checksum);
            && ParsePng(Spliced(data, checksum)) == Some([chunks[0], comment] + chunks[1..])
            && FromBigEndian(comment.crc) == BitsNat(BitSerialCrc(comment.kind + comment.data))
            && |comment.data| == 41 && comment.data[9..] == checksum
            && TextOf(comment.kind) == "tEXt" && TextOf(comment.data[..8]) == "checksum" && comment.data[8] == 0
            && |Spliced(data, checksum)| == |data| + 53
  {
    var chunks, comment := ParsePng(data).value, CommentChunk(checksum);
    var rest := PngHeader(data);
    CommentShape(checksum);
    ParseTwo(chunks[0], comment, rest, chunks[1..]);
    SpliceParts(data, checksum, Encode(chunks[0]), rest);
  }

  lemma ParseTwo(a: Chunk, b: Chunk, s: Bytes, chunks: seq<Chunk>)
    requires WellSized(a) && WellSized(b) && ParseChunks(s) == Some(chunks)
    ensures ParseChunks(Encode(a) + (Encode(b) + s)) == Some([a, b] + chunks)
  {
    ParseEncoded(b, s);
    ParseEncoded(a, Encode(b) + s);
    assert [a] + ([b] + chunks) == [a, b] + chunks;
  }

  lemma CommentShape(checksum: Bytes)
    requires |checksum| == 32
    ensures var comment := CommentChunk(checksum);
            && WellSized(comment) && FromBigEndian(comment.crc) == BitsNat(BitSerialCrc(comment.kind + comment.data))
            && |comment.data| == 41 && comment.data[9..] == checksum
            && TextOf(comment.kind) == "tEXt" && TextOf(comment.data[..8]) == "checksum" && comment.data[8] == 0
            && |Encode(comment)| == 53
  {
    CheckReadsBack(TEXT, KEYWORD + checksum);
    assert (KEYWORD + checksum)[9..] == checksum;
    assert (KEYWORD + checksum)[..8] == KEYWORD[..8];
  }

  /** A PNG file is the signature, the 25 bytes of the header chunk, and the other chunks. */
  lemma PngHeader(data: Bytes) returns (rest: Bytes)
    requires ParsePng(data).Some?
    ensures var chunks := ParsePng(data).value;
            && WellSized(chunks[0]) && |Encode(chunks[0])| == 25
            && data == SIGNATURE + (Encode(chunks[0]) + rest) && ParseChunks(rest) == Some(chunks[1..])
  {
    ParsedHead(data[8..]);
    rest := data[8..][25..];
    Rejoin(data, Encode(ParsePng(data).value[0]));
  }

  lemma Rejoin(data: Bytes, header: Bytes)
    requires |data| >= INSERT_OFFSET && data[..8] == SIGNATURE && data[8..][..25] == header
    ensures data == SIGNATURE + (header + data[8..][25..])
  {
    assert data[8..] == data[8..][..25] + data[8..][25..];
    assert data == data[..8] + data[8..];
  }

  lemma SpliceParts(data: Bytes, checksum: Bytes, header: Bytes, rest: Bytes)
    requires |header| == 25 && data == SIGNATURE + (header + rest) && |checksum| == 32
    ensures var s := Spliced(data, checksum);
            |s| >= 8 && s[..8] == SIGNATURE && s[8..] == header + (Encode(CommentChunk(checksum)) + rest)
  {
    assert data[..INSERT_OFFSET] == SIGNATURE + header && data[INSERT_OFFSET..] == rest;
    Regroup(SIGNATURE, header, Encode(CommentChunk(checksum)), rest);
  }

  lemma Regroup(a: Bytes, b: Bytes, c: Bytes, d: Bytes)
    ensures var s := (a + b) + c + d; s[..|a|] == a && s[|a|..] == b + (c + d)
  {
  }

  // ----- the printing code -----

  class ByteVector {
    var bytes: Bytes

    constructor ()
      ensures bytes == []
    {
      bytes := [];
    }

    method Append(s: Bytes)
      modifies this
      ensures bytes == old(bytes) + s
    {
      bytes := bytes + s;
    }

    method Grow(size: nat)
      requires size >= |bytes|
      modifies this
      ensures |bytes| == size && old(bytes) <= bytes
    {
      bytes := bytes + seq(size - |bytes|, _ => 0);
    }

    method Set(i: nat, b: Byte)
      requires i < |bytes|
      modifies this
      ensures bytes == old(bytes)[i := b]
    {
      bytes := bytes[i := b];
    }
  }

  method AppendIntToVector(number: nat, vector: ByteVector)
    requires number < 0x1_0000_0000
    modifies vector
    ensures vector.bytes == old(vector.bytes) + BigEndian(number)
  {
    var offset := |vector.bytes|;
    vector.Grow(offset + 4);
    vector.Set(offset, number / 0x100_0000 % 256);
    vector.Set(offset + 1, number / 0x1_0000 % 256);
    vector.Set(offset + 2, number / 0x100 % 256);
    vector.Set(offset + 3, number % 256);
  }

  /** The constant text of convertChecksumToPNGComment: length 0x29, type, keyword, separator. */
  const TEXT_COMMENT_PREFIX: Bytes := [0, 0, 0, 0x29] + TEXT + KEYWORD

  method ConvertChecksumToPNGComment(checksum: Bytes, crcTable: CrcTable, bytesToAdd: ByteVector)
    requires |checksum| == 32 && crcTable.Valid()
    modifies crcTable, crcTable.table, bytesToAdd
    ensures crcTable.Valid()
    ensures bytesToAdd.bytes == old(bytesToAdd.bytes) + Encode(CommentChunk(checksum))
  {
    bytesToAdd.Append(TEXT_COMMENT_PREFIX);
    bytesToAdd.Append(checksum);
    var dataToCrc := new ByteVector();
    dataToCrc.Append(TEXT_COMMENT_PREFIX[4..]);
    dataToCrc.Append(checksum);
    assert dataToCrc.bytes == TEXT + (KEYWORD + checksum);
    var crc := crcTable.ComputeCrc(dataToCrc.bytes);
    BitsNatBound(crc);
    PowThirtyTwo();
    AppendIntToVector(BitsNat(crc), bytesToAdd);
    CommentBytes(old(bytesToAdd.bytes), checksum);
  }

  lemma CommentBytes(s: Bytes, checksum: Bytes)
    requires |checksum| == 32
    ensures s + TEXT_COMMENT_PREFIX + checksum + CheckOf(TEXT, KEYWORD + checksum) == s + Encode(CommentChunk(checksum))
  {
    var check := CheckOf(TEXT, KEYWORD + checksum);
    assert BigEndian(41) == [0, 0, 0, 0x29];
    assert Encode(CommentChunk(checksum)) == TEXT_COMMENT_PREFIX + checksum + check;
    assert s + TEXT_COMMENT_PREFIX + checksum + check == s + (TEXT_COMMENT_PREFIX + checksum + check);
  }

  /**
   * Standard output. The next calls of fwrite accept at most as many bytes as `limits` says;
   * `short` tells whether a call has written less than it was given.
   */
  class Stdout {
    var written: Bytes
    var limits: seq<nat>
    var short: bool

    constructor (limits: seq<nat>)
      ensures written == [] && this.limits == limits && !short
    {
      written, this.limits, short := [], limits, false;
    }

    /** fwrite: writes a beginning of the bytes and returns its length. */
    method Fwrite(s: Bytes) returns (n: nat)
      modifies this
      ensures n <= |s| && written == old(written) + s[..n]
      ensures short <==> old(short) || n != |s|
    {
      n := if limits != [] && limits[0] < |s| then limits[0] else |s|;
      limits := if limits == [] then [] else limits[1..];
      written, short := written + s[..n], short || n != |s|;
    }
  }

  /** The two header lines. */
  function Header(contentLength: nat): Bytes {
    TextBytes("Content-Type: image/png\n") + TextBytes("Content-Length: " + Decimal(contentLength) + "\n")
  }

  // ----- reading the output -----

  /** The first line, the number after "Content-Length: " in the second, and what follows the second. */
  datatype Response = Response(firstLine: string, contentLength: nat, body: Bytes)

  const NEWLINE: Byte := 10

  /** The position of the first newline, or the length. */
  function LineEnd(s: Bytes): (n: nat)
    ensures n <= |s| && (n < |s| ==> s[n] == NEWLINE) && forall i | 0 <= i < n :: s[i] != NEWLINE
  {
    if s == [] || s[0] == NEWLINE then 0 else 1 + LineEnd(s[1..])
  }

  function ReadResponse(s: Bytes): Option<Response> {
    var a := LineEnd(s);
    if a == |s| then None
    else
      var t := s[a + 1..];
      var b := LineEnd(t);
      if b == |t| then None
      else
        match ReadLength(TextOf(t[..b]))
        case None => None
        case Some(n) => Some(Response(TextOf(s[..a]), n, t[b + 1..]))
  }

  function ReadLength(line: string): Option<nat> {
    if "Content-Length: " <= line then Some(DigitsValue(line[|"Content-Length: "|..])) else None
  }

  /** Text without a newline, as bytes. */
  predicate OneLine(text: string) {
    forall i | 0 <= i < |text| :: ' ' <= text[i] <= '~'
  }

  lemma TextReadsBack(text: string)
    requires OneLine(text)
    ensures TextOf(TextBytes(text)) == text
  {
  }

  /** A line, its newline and more bytes: the line ends where it should. */
  lemma LineIsRead(text: string, more: Bytes)
    requires OneLine(text)
    ensures var s := TextBytes(text + "\n") + more;
            LineEnd(s) == |text| < |s| && TextOf(s[..|text|]) == text && s[|text| + 1..] == more
  {
    var line, s := TextBytes(text), TextBytes(text + "\n") + more;
    assert forall i | 0 <= i < |text| :: s[i] == line[i] && s[i] != NEWLINE;
    assert s[|text|] == NEWLINE;
    assert s[..|text|] == line;
    TextReadsBack(text);
  }

  /** The length line holds the number, in decimal digits. */
  lemma LengthIsRead(n: nat)
    ensures OneLine("Content-Length: " + Decimal(n)) && ReadLength("Content-Length: " + Decimal(n)) == Some(n)
  {
    var prefix := "Content-Length: ";
    assert (prefix + Decimal(n))[|prefix|..] == Decimal(n);
    DecimalReadsBack(n);
  }

  /** After the header lines a reader finds the content type, the announced length, and the rest. */
  lemma HeaderIsRead(n: nat, body: Bytes)
    ensures ReadResponse(Header(n) + body) == Some(Response("Content-Type: image/png", n, body))
  {
    LengthIsRead(n);
    LinesAreRead("Content-Type: image/png", "Content-Length: " + Decimal(n), n, body);
    HeaderIsTwoLines(n, body);
  }

  lemma HeaderIsTwoLines(n: nat, body: Bytes)
    ensures Header(n) + body
            == TextBytes("Content-Type: image/png" + "\n") + (TextBytes("Content-Length: " + Decimal(n) + "\n") + body)
  {
    assert "Content-Type: image/png" + "\n" == "Content-Type: image/png\n";
  }

  lemma LinesAreRead(first: string, second: string, n: nat, body: Bytes)
    requires OneLine(first) && OneLine(second) && ReadLength(second) == Some(n)
    ensures ReadResponse(TextBytes(first + "\n") + (TextBytes(second + "\n") + body)) == Some(Response(first, n, body))
  {
    var t := TextBytes(second + "\n") + body;
    LineIsRead(first, t);
    LineIsRead(second, body);
    ReadAt(TextBytes(first + "\n") + t, t, first, second, n, body);
  }

  lemma ReadAt(s: Bytes, t: Bytes, first: string, second: string, n: nat, body: Bytes)
    requires LineEnd(s) == |first| < |s| && TextOf(s[..|first|]) == first && s[|first| + 1..] == t
    requires LineEnd(t) == |second| < |t| && TextOf(t[..|second|]) == second && t[|second| + 1..] == body
    requires ReadLength(second) == Some(n)
    ensures ReadResponse(s) == Some(Response(first, n, body))
  {
  }

  const BYTES_IN_ONE_CHUNK: nat := 0x8000

  /**
   * Prints the header lines and the file with the comment spliced in. Whatever the writes accept,
   * the output consists of beginnings of header, file start, comment and rest, in this order; if no
   * write is short a reader finds the content type, the length of what follows, and the spliced file.
   */
  method PrintPNG(data: Bytes, checksum: Bytes, crcTable: CrcTable, out: Stdout)
    returns (ghost h: nat, ghost f: nat, ghost c: nat, ghost r: nat)
    requires |data| >= INSERT_OFFSET && |checksum| == 32 && crcTable.Valid()
    requires out.written == [] && !out.short
    modifies crcTable, crcTable.table, out
    ensures crcTable.Valid()
    ensures Beginnings(Header(|Spliced(data, checksum)|), data[..INSERT_OFFSET], Encode(CommentChunk(checksum)),
                       data[INSERT_OFFSET..], h, f, c, r, out.written)
    ensures var file := Spliced(data, checksum);
            !out.short ==> ReadResponse(out.written) == Some(Response("Content-Type: image/png", |file|, file))
  {
    var bytesToAdd := MakeComment(checksum, crcTable);
    h, f, c, r := PrintWith(data, bytesToAdd, out, Spliced(data, checksum));
  }

  method MakeComment(checksum: Bytes, crcTable: CrcTable) returns (bytes: Bytes)
    requires |checksum| == 32 && crcTable.Valid()
    modifies crcTable, crcTable.table
    ensures crcTable.Valid() && bytes == Encode(CommentChunk(checksum))
  {
    var bytesToAdd := new ByteVector();
    ConvertChecksumToPNGComment(checksum, crcTable, bytesToAdd);
    bytes := bytesToAdd.bytes;
  }

  /** The header and the file with the given bytes after the header chunk. */
  method PrintWith(data: Bytes, comment: Bytes, out: Stdout, ghost file: Bytes)
    returns (ghost h: nat, ghost f: nat, ghost c: nat, ghost r: nat)
    requires |data| >= INSERT_OFFSET && file == data[..INSERT_OFFSET] + comment + data[INSERT_OFFSET..]
    requires out.written == [] && !out.short
    modifies out
    ensures Beginnings(Header(|file|), data[..INSERT_OFFSET], comment, data[INSERT_OFFSET..], h, f, c, r, out.written)
    ensures !out.short ==> ReadResponse(out.written) == Some(Response("Content-Type: image/png", |file|, file))
  {
    var insertOffset := INSERT_OFFSET;
    var header := Header(|data| + |comment|);
    h, f, c, r := PrintParts(header, data[..insertOffset], comment, data[insertOffset..], out, file);
    PrintedIsRead(header, file, header + file);
  }

  lemma PrintedIsRead(header: Bytes, file: Bytes, written: Bytes)
    requires header == Header(|file|) && written == header + file
    ensures ReadResponse(written) == Some(Response("Content-Type: image/png", |file|, file))
  {
    HeaderIsRead(|file|, file);
  }

  /** The bytes are beginnings, of the given lengths, of four parts in order. */
  predicate Beginnings(header: Bytes, first: Bytes, comment: Bytes, rest: Bytes, h: nat, f: nat, c: nat, r: nat,
                       s: Bytes) {
    && h <= |header| && f <= |first| && c <= |comment| && r <= |rest|
    && s == header[..h] + first[..f] + comment[..c] + rest[..r]
  }

  /** The four writes; only the last one's progress is looked at. */
  method PrintParts(header: Bytes, first: Bytes, comment: Bytes, rest: Bytes, out: Stdout, ghost file: Bytes)
    returns (ghost h: nat, ghost f: nat, ghost c: nat, ghost r: nat)
    requires out.written == [] && !out.short && file == first + comment + rest
    modifies out
    ensures Beginnings(header, first, comment, rest, h, f, c, r, out.written)
    ensures !out.short ==> out.written == header + file
  {
    h := out.Fwrite(header);
    f := out.Fwrite(first);
    c := out.Fwrite(comment);
    r := WriteRest(rest, out);
  }

  /** The loop that writes the rest in blocks and stops at the first short write. */
  method WriteRest(data: Bytes, out: Stdout) returns (ghost done: nat)
    modifies out
    ensures done <= |data| && out.written == old(out.written) + data[..done]
    ensures out.short <==> old(out.short) || done != |data|
  {
    var rest := data;
    done := 0;
    while rest != []
      invariant done <= |data| && rest == data[done..] && out.written == old(out.written) + data[..done]
      invariant out.short == old(out.short)
      decreases |rest|
    {
      var size := if |rest| <= BYTES_IN_ONE_CHUNK then |rest| else BYTES_IN_ONE_CHUNK;
      var n := out.Fwrite(rest[..size]);
      assert data[..done] + rest[..size][..n] == data[..done + n];
      done := done + n;
      if n != size {
        break;
      }
      rest := rest[n..];
    }
  }
}

/**
 PNG files: a signature and a sequence of chunks, each with its length, its tag, its data and a
 CRC (sections 3.1 and 3.2 of RFC 2083), and the reading of a file back into a picture. The CRC
 and the compression are parameters.
 */
module PngFile {
  import opened Wrappers

  type Byte = b: int | 0 <= b < 256
  type Bytes = seq<Byte>

  datatype Codec = Codec(compress: Bytes -> Bytes, decompress: Bytes -> Bytes, crc: Bytes -> nat)

  /** What is assumed of the compression. */
  ghost predicate Inflates(codec: Codec) {
    forall raw :: codec.decompress(codec.compress(raw)) == raw
  }

  // ---------- Unsigned 32-bit numbers ----------

  const WORD: nat := 0x1_0000_0000

  /** The number can be packed into four bytes. */
  predicate Packs(n: int) { 0 <= n < WORD }

  function BigEndian(n: nat): (bytes: Bytes)
    requires Packs(n)
    ensures |bytes| == 4
  {
    [n / 0x100_0000, n / 0x1_0000 % 0x100, n / 0x100 % 0x100, n % 0x100]
  }

  function FromBigEndian(bytes: Bytes): nat
    requires |bytes| >= 4
  {
    var (a: int, b: int, c: int, d: int) := (bytes[0], bytes[1], bytes[2], bytes[3]);
    a * 0x100_0000 + b * 0x1_0000 + c * 0x100 + d
  }

  lemma UnpackPacked(n: nat, rest: Bytes)
    requires Packs(n)
    ensures FromBigEndian(BigEndian(n) + rest) == n
    ensures
      var (a: int, b: int, c: int, d: int) := (BigEndian(n)[0], BigEndian(n)[1], BigEndian(n)[2], BigEndian(n)[3]);
      a * 0x100_0000 + b * 0x1_0000 + c * 0x100 + d == n
  {
    var (a, b, c, d) := (n / 0x100_0000, n / 0x1_0000 % 0x100, n / 0x100 % 0x100, n % 0x100);
    assert n / 0x1_0000 == a * 0x100 + b;
    assert n / 0x100 == (a * 0x100 + b) * 0x100 + c;
    assert BigEndian(n) + rest == [a, b, c, d] + rest;
  }

  // ---------- Chunks ----------

  type Tag = t: Bytes | |t| == 4 witness [0, 0, 0, 0]

  datatype Chunk = Chunk(tag: Tag, data: Bytes)

  const SIGNATURE: Bytes := [0x89, 0x50, 0x4E, 0x47, 0x0D, 0x0A, 0x1A, 0x0A]
  const IHDR: Tag := [0x49, 0x48, 0x44, 0x52]
  const IDAT: Tag := [0x49, 0x44, 0x41, 0x54]
  const IEND: Tag := [0x49, 0x45, 0x4E, 0x44]

  function Checksum(codec: Codec, chunk: Chunk): (n: nat)
    ensures Packs(n)
  {
    codec.crc(chunk.tag + chunk.data) % WORD
  }

  function EncodeChunk(codec: Codec, chunk: Chunk): Bytes
    requires Packs(|chunk.data|)
  {
    BigEndian(|chunk.data|) + chunk.tag + chunk.data + BigEndian(Checksum(codec, chunk))
  }

  function EncodeChunks(codec: Codec, chunks: seq<Chunk>): Bytes
    requires forall i :: 0 <= i < |chunks| ==> Packs(|chunks[i].data|)
  {
    if chunks == [] then [] else EncodeChunk(codec, chunks[0]) + EncodeChunks(codec, chunks[1..])
  }

  /** Reads chunks to the end; fails on a chunk that is cut off or whose CRC does not match. */
  function ParseChunks(codec: Codec, bytes: Bytes): Option<seq<Chunk>>
    decreases |bytes|
  {
    if bytes == [] then Some([])
    else if |bytes| < 12 || |bytes| < 12 + FromBigEndian(bytes) then None
    else
      var n := FromBigEndian(bytes);
      var chunk := Chunk(bytes[4..8], bytes[8..8 + n]);
      if FromBigEndian(bytes[8 + n..]) != Checksum(codec, chunk) then None
      else
        var rest := ParseChunks(codec, bytes[12 + n..]);
        if rest.None? then None else Some([chunk] + rest.value)
  }

  /** The fields of an encoded chunk, in front of other bytes. */
  lemma FieldsOfEncoded(codec: Codec, chunk: Chunk, rest: Bytes, bytes: Bytes)
    requires Packs(|chunk.data|) && bytes == EncodeChunk(codec, chunk) + rest
    ensures var n := |chunk.data|;
      && |bytes| == 12 + n + |rest|
      && FromBigEndian(bytes) == n
      && bytes[4..8] == chunk.tag && bytes[8..8 + n] == chunk.data
      && FromBigEndian(bytes[8 + n..]) == Checksum(codec, chunk)
      && bytes[8 + n..12 + n] == BigEndian(codec.crc(bytes[4..8 + n]) % 0x1_0000_0000)
      && bytes[12 + n..] == rest
  {
    var n := |chunk.data|;
    var check := BigEndian(Checksum(codec, chunk));
    assert bytes == BigEndian(n) + (chunk.tag + chunk.data + check + rest);
    UnpackPacked(n, chunk.tag + chunk.data + check + rest);
    assert bytes[8 + n..] == check + rest && bytes[8 + n..12 + n] == check;
    assert bytes[4..8 + n] == chunk.tag + chunk.data;
    UnpackPacked(Checksum(codec, chunk), rest);
  }

  lemma ParseFirst(codec: Codec, chunk: Chunk, rest: Bytes, bytes: Bytes)
    requires Packs(|chunk.data|) && bytes == EncodeChunk(codec, chunk) + rest
    requires ParseChunks(codec, rest).Some?
    ensures ParseChunks(codec, bytes) == Some([chunk] + ParseChunks(codec, rest).value)
  {
    FieldsOfEncoded(codec, chunk, rest, bytes);
  }

  lemma {:induction false} ParseEncoded(codec: Codec, chunks: seq<Chunk>)
    requires forall i :: 0 <= i < |chunks| ==> Packs(|chunks[i].data|)
    ensures ParseChunks(codec, EncodeChunks(codec, chunks)) == Some(chunks)
  {
    if chunks != [] {
      ParseEncoded(codec, chunks[1..]);
      ParseFirst(codec, chunks[0], EncodeChunks(codec, chunks[1..]), EncodeChunks(codec, chunks));
      assert chunks == [chunks[0]] + chunks[1..];
    }
  }

  // ---------- Files ----------

  /** 8-bit RGB, without interlacing (section 4.1.1 of RFC 2083). */
  const FORMAT: Bytes := [8, 2, 0, 0, 0]

  function Header(width: nat, height: nat): (bytes: Bytes)
    requires Packs(width) && Packs(height)
    ensures |bytes| == 13
  {
    BigEndian(width) + BigEndian(height) + FORMAT
  }

  function Encode(codec: Codec, width: nat, height: nat, compressed: Bytes): Bytes
    requires Packs(width) && Packs(height) && Packs(|compressed|)
  {
    SIGNATURE + EncodeChunk(codec, Chunk(IHDR, Header(width, height)))
    + EncodeChunk(codec, Chunk(IDAT, compressed)) + EncodeChunk(codec, Chunk(IEND, []))
  }

  function Parse(codec: Codec, file: Bytes): Option<seq<Chunk>> {
    if |file| < |SIGNATURE| || file[..|SIGNATURE|] != SIGNATURE then None
    else ParseChunks(codec, file[|SIGNATURE|..])
  }

  /** A picture: its size, and its scanlines with their filter bytes. */
  datatype Picture = Picture(width: nat, height: nat, raw: Bytes)

  /** Reads an 8-bit RGB file that has one data chunk. */
  function Decode(codec: Codec, file: Bytes): Option<Picture> {
    var chunks := Parse(codec, file);
    if chunks.None? || |chunks.value| != 3 then None
    else
      var (header, data, end) := (chunks.value[0], chunks.value[1], chunks.value[2]);
      if header.tag != IHDR || |header.data| != 13 || header.data[8..] != FORMAT then None
      else if data.tag != IDAT || end.tag != IEND || end.data != [] then None
      else Some(Picture(FromBigEndian(header.data), FromBigEndian(header.data[4..]), codec.decompress(data.data)))
  }

  lemma EncodeThree(codec: Codec, a: Chunk, b: Chunk, c: Chunk)
    requires Packs(|a.data|) && Packs(|b.data|) && Packs(|c.data|)
    ensures EncodeChunks(codec, [a, b, c]) == EncodeChunk(codec, a) + EncodeChunk(codec, b) + EncodeChunk(codec, c)
  {
    assert [a, b, c][1..] == [b, c] && [b, c][1..] == [c] && [c][1..] == [];
    assert EncodeChunks(codec, []) == [];
    assert EncodeChunks(codec, [c]) == EncodeChunk(codec, c);
    assert EncodeChunks(codec, [b, c]) == EncodeChunk(codec, b) + EncodeChunk(codec, c);
  }

  lemma AfterSignature(file: Bytes, a: Bytes, b: Bytes, c: Bytes)
    requires file == SIGNATURE + a + b + c
    ensures |file| >= |SIGNATURE| && file[..|SIGNATURE|] == SIGNATURE && file[|SIGNATURE|..] == a + b + c
  {
    assert file == SIGNATURE + (a + b + c);
  }

  lemma ParseThree(codec: Codec, a: Chunk, b: Chunk, c: Chunk, file: Bytes)
    requires Packs(|a.data|) && Packs(|b.data|) && Packs(|c.data|)
    requires file == SIGNATURE + EncodeChunk(codec, a) + EncodeChunk(codec, b) + EncodeChunk(codec, c)
    ensures Parse(codec, file) == Some([a, b, c])
  {
    AfterSignature(file, EncodeChunk(codec, a), EncodeChunk(codec, b), EncodeChunk(codec, c));
    EncodeThree(codec, a, b, c);
    ParseEncoded(codec, [a, b, c]);
  }

  /** The emitted bytes are a signature and the three chunks. */
  lemma ParseFile(codec: Codec, width: nat, height: nat, compressed: Bytes)
    requires Packs(width) && Packs(height) && Packs(|compressed|)
    ensures Parse(codec, Encode(codec, width, height, compressed))
         == Some([Chunk(IHDR, Header(width, height)), Chunk(IDAT, compressed), Chunk(IEND, [])])
  {
    ParseThree(codec, Chunk(IHDR, Header(width, height)), Chunk(IDAT, compressed), Chunk(IEND, []),
               Encode(codec, width, height, compressed));
  }

  /**
   The fixed bytes of a file: the signature, then an IHDR chunk of 13 bytes with width and height and
   the format 8-bit RGB, then an IDAT chunk, and an empty IEND chunk at the end (sections 3.1, 4.1.1,
   4.1.3 and 4.1.4 of RFC 2083).
   */
  lemma FixedBytes(codec: Codec, width: nat, height: nat, compressed: Bytes)
    requires Packs(width) && Packs(height) && Packs(|compressed|)
    ensures
      var (file, n) := (Encode(codec, width, height, compressed), |compressed|);
      && |file| == 57 + n
      && file[..16] == [137, 80, 78, 71, 13, 10, 26, 10, 0, 0, 0, 13, 73, 72, 68, 82]
      && file[16..20] == BigEndian(width) && file[20..24] == BigEndian(height) && file[24..29] == [8, 2, 0, 0, 0]
      && file[33..37] == BigEndian(n) && file[37..41] == [73, 68, 65, 84] && file[41..41 + n] == compressed
      && file[45 + n..53 + n] == [0, 0, 0, 0, 73, 69, 78, 68]
  {
    var (file, n) := (Encode(codec, width, height, compressed), |compressed|);
    var header := EncodeChunk(codec, Chunk(IHDR, Header(width, height)));
    var data := EncodeChunk(codec, Chunk(IDAT, compressed));
    var end := EncodeChunk(codec, Chunk(IEND, []));
    FourParts(file, SIGNATURE, header, data, end);
    ChunkParts(codec, Chunk(IHDR, Header(width, height)), header);
    ChunkParts(codec, Chunk(IDAT, compressed), data);
    ChunkParts(codec, Chunk(IEND, []), end);
    assert file[..16] == SIGNATURE + header[..8];
    assert file[16..29] == header[8..21];
    assert file[16..20] == file[16..29][..4] && file[20..24] == file[16..29][4..8] && file[24..29] == file[16..29][8..];
    assert file[33..37] == data[..8][..4] && file[37..41] == data[..8][4..] && file[41..41 + n] == data[8..8 + n];
    assert file[45 + n..53 + n] == end[..8];
  }

  lemma FourParts(file: Bytes, a: Bytes, b: Bytes, c: Bytes, d: Bytes)
    requires file == a + b + c + d
    ensures file[..|a|] == a && file[|a|..|a + b|] == b && file[|a + b|..|a + b + c|] == c && file[|a + b + c|..] == d
  {
  }

  lemma ChunkParts(codec: Codec, chunk: Chunk, bytes: Bytes)
    requires Packs(|chunk.data|) && bytes == EncodeChunk(codec, chunk)
    ensures |bytes| == 12 + |chunk.data|
    ensures bytes[..8] == BigEndian(|chunk.data|) + chunk.tag && bytes[8..8 + |chunk.data|] == chunk.data
  {
  }

  /** A file reads back as the picture it was made from. */
  lemma DecodeEncoded(codec: Codec, width: nat, height: nat, raw: Bytes)
    requires Inflates(codec) && Packs(width) && Packs(height) && Packs(|codec.compress(raw)|)
    ensures Decode(codec, Encode(codec, width, height, codec.compress(raw))) == Some(Picture(width, height, raw))
  {
    ParseFile(codec, width, height, codec.compress(raw));
    var header := Header(width, height);
    assert header == BigEndian(width) + (BigEndian(height) + FORMAT);
    UnpackPacked(width, BigEndian(height) + FORMAT);
    assert header[4..] == BigEndian(height) + FORMAT;
    UnpackPacked(height, FORMAT);
    assert header[8..] == FORMAT;
  }

  // ---------- Pictures ----------

  /** The bytes of one scanline: the filter byte and three for each pixel. */
  function LineSize(width: nat): nat { 1 + 3 * width }

  /** The filter byte of scanline `py`. */
  function FilterAt(raw: Bytes, width: nat, py: nat): Option<Byte> {
    var at := py * LineSize(width);
    if at < |raw| then Some(raw[at]) else None
  }

  /** The red, green and blue of a pixel. */
  function PixelAt(raw: Bytes, width: nat, px: nat, py: nat): Option<(Byte, Byte, Byte)> {
    var at := py * LineSize(width) + (1 + 3 * px);
    if at + 2 < |raw| then Some((raw[at], raw[at + 1], raw[at + 2])) else None
  }

  // ---------- Validity ----------

  /** The largest width, height and chunk length (sections 3.2 and 4.1.1 of RFC 2083). */
  const LARGEST: nat := 0x7FFF_FFFF

  const LAST_FILTER_TYPE: Byte := 4

  /** All lines are there, each with a filter type that is defined (section 6 of RFC 2083). */
  ghost predicate Complete(picture: Picture) {
    && |picture.raw| == picture.height * LineSize(picture.width)
    && forall py: nat :: py < picture.height ==>
         && FilterAt(picture.raw, picture.width, py).Some?
         && FilterAt(picture.raw, picture.width, py).value <= LAST_FILTER_TYPE
  }

  /** A valid 8-bit RGB file: no chunk is too long, and the picture has a size and all of its lines. */
  ghost predicate ValidFile(codec: Codec, file: Bytes) {
    && Parse(codec, file).Some?
    && (forall i :: 0 <= i < |Parse(codec, file).value| ==> |Parse(codec, file).value[i].data| <= LARGEST)
    && Decode(codec, file).Some?
    && 1 <= Decode(codec, file).value.width <= LARGEST
    && 1 <= Decode(codec, file).value.height <= LARGEST
    && Complete(Decode(codec, file).value)
  }

  /** When an emitted file is valid. */
  lemma ValidEncodedExactly(codec: Codec, width: nat, height: nat, raw: Bytes)
    requires Inflates(codec) && Packs(width) && Packs(height) && Packs(|codec.compress(raw)|)
    ensures ValidFile(codec, Encode(codec, width, height, codec.compress(raw))) <==>
      && |codec.compress(raw)| <= LARGEST
      && 1 <= width <= LARGEST && 1 <= height <= LARGEST
      && Complete(Picture(width, height, raw))
  {
    var compressed := codec.compress(raw);
    ParseFile(codec, width, height, compressed);
    DecodeEncoded(codec, width, height, raw);
    var chunks := Parse(codec, Encode(codec, width, height, compressed)).value;
    assert chunks[0].data == Header(width, height) && chunks[1].data == compressed && chunks[2].data == [];
  }
}

/** The PNG writer, and its round trip through a decoder written from RFC 2083. */
module Png {
  import opened Bits
  import opened Wrappers
  import opened Inflate
  import opened PngFilter
  import Zlib
  import Crc
  import Deflate

  // ----- a decoder written from RFC 2083

  /** Rows of `width * channels` bytes, top row first. */
  datatype Image = Image(width: nat, height: nat, channels: nat, rows: seq<seq<Byte>>)

  /** Section 2.1: a four-byte integer, most significant byte first. */
  function ReadWord(b: seq<Byte>): nat
    requires |b| == 4
  {
    0x100_0000 * b[0] as int + 0x1_0000 * b[1] as int + 0x100 * b[2] as int + b[3]
  }

  function Word(v: nat): (b: seq<Byte>)
    requires v < WORD32
    ensures |b| == 4
  {
    [v / 0x100_0000, v / 0x1_0000 % 256, v / 0x100 % 256, v % 256]
  }

  /** A checksum register as four bytes, most significant first. */
  function CrcBytes(r: Crc.Register): (b: seq<Byte>)
    ensures |b| == 4
  {
    var bytes := BitsBytes(r);
    [bytes[3], bytes[2], bytes[1], bytes[0]]
  }

  datatype Chunk = Chunk(tag: seq<Byte>, data: seq<Byte>)

  /** Section 3.2: length, type, data, checksum of type and data. */
  function ReadChunk(b: seq<Byte>): (r: Option<(Chunk, seq<Byte>)>)
    ensures r.Some? ==> |r.value.1| < |b|
  {
    if |b| < 12 then None else
    var len := ReadWord(b[..4]);
    if |b| < 12 + len then None else
    var body := b[4..8 + len];
    if b[8 + len..12 + len] != CrcBytes(Crc.Checksum(body)) then None
    else Some((Chunk(body[..4], body[4..]), b[12 + len..]))
  }

  const SIGNATURE: seq<Byte> := [137, 80, 78, 71, 13, 10, 26, 10]
  const IHDR: seq<Byte> := [0x49, 0x48, 0x44, 0x52]
  const IDAT: seq<Byte> := [0x49, 0x44, 0x41, 0x54]
  const IEND: seq<Byte> := [0x49, 0x45, 0x4e, 0x44]

  /** Section 4.1.1: samples per pixel of a colour type. */
  function Channels(colourType: Byte): Option<nat> {
    match colourType
    case 0 => Some(1)
    case 2 => Some(3)
    case 4 => Some(2)
    case 6 => Some(4)
    case _ => None
  }

  /** Section 6: each row is one filter byte and the filtered bytes; the row above the first is zero. */
  function ReadRows(b: seq<Byte>, rowBytes: nat, n: nat, height: nat, prior: seq<Byte>): Option<seq<seq<Byte>>>
    requires 1 <= n && |prior| == rowBytes
    decreases height
  {
    if height == 0 then if b == [] then Some([]) else None
    else if |b| < rowBytes + 1 || b[0] > 4 then None
    else
      var row := Unfilter(b[0], b[1..rowBytes + 1], prior, n, []);
      match ReadRows(b[rowBytes + 1..], rowBytes, n, height - 1, row)
      case None => None
      case Some(rows) => Some([row] + rows)
  }

  datatype Header = Header(width: nat, height: nat, channels: nat)

  /** Section 4.1.1: eight bits a sample, no interlacing. */
  function ReadHeader(c: Chunk): (h: Option<Header>)
    ensures h.Some? ==> h.value.channels >= 1
  {
    if c.tag != IHDR || |c.data| != 13 || c.data[8] != 8 || c.data[10..] != [0, 0, 0] then None
    else
      match Channels(c.data[9])
      case None => None
      case Some(n) => Some(Header(ReadWord(c.data[..4]), ReadWord(c.data[4..8]), n))
  }

  /** The chunks of a file: header, image data, end. */
  function ReadChunks(b: seq<Byte>): Option<seq<Chunk>>
    decreases |b|
  {
    if b == [] then Some([])
    else
      match ReadChunk(b)
      case None => None
      case Some((c, rest)) => PrependChunk(c, ReadChunks(rest))
  }

  function PrependChunk(c: Chunk, cs: Option<seq<Chunk>>): Option<seq<Chunk>> {
    match cs case None => None case Some(s) => Some([c] + s)
  }

  function Decode(b: seq<Byte>): Option<Image> {
    if |b| < 8 || b[..8] != SIGNATURE then None
    else
      match ReadChunks(b[8..])
      case None => None
      case Some(cs) => DecodeChunks(cs)
  }

  function DecodeChunks(cs: seq<Chunk>): Option<Image> {
    if |cs| != 3 || cs[1].tag != IDAT || cs[2] != Chunk(IEND, []) then None
    else
      match ReadHeader(cs[0])
      case None => None
      case Some(h) =>
        match ZlibDecode(cs[1].data)
        case None => None
        case Some(filtered) => DecodeRows(h, filtered)
  }

  function DecodeRows(h: Header, filtered: seq<Byte>): Option<Image>
    requires h.channels >= 1
  {
    match ReadRows(filtered, h.width * h.channels, h.channels, h.height, ZeroRow(h.width * h.channels))
    case None => None
    case Some(rows) => Some(Image(h.width, h.height, h.channels, rows))
  }

  // ----- the writer

  /** A chunk as written. */
  function ChunkBytes(c: Chunk): (b: seq<Byte>)
    requires |c.tag| == 4 && |c.data| < WORD32
    ensures |b| == 12 + |c.data|
  {
    Word(|c.data|) + c.tag + c.data + CrcBytes(Crc.Checksum(c.tag + c.data))
  }

  lemma WordRoundTrip(v: nat)
    requires v < WORD32
    ensures ReadWord(Word(v)) == v
  {
    var h := v / 0x100;
    var k := h / 0x100;
    assert v == 0x100 * h + v % 0x100 && h == 0x100 * k + h % 0x100;
    assert k == v / 0x1_0000 && h % 0x100 == v / 0x100 % 256;
    assert k == 0x100 * (k / 0x100) + k % 0x100 && k / 0x100 == v / 0x100_0000;
  }

  lemma ReadChunkBytes(c: Chunk, rest: seq<Byte>)
    requires |c.tag| == 4 && |c.data| < WORD32
    ensures ReadChunk(ChunkBytes(c) + rest) == Some((c, rest))
  {
    hide Word, ReadWord, CrcBytes, Crc.Checksum;
    var b := ChunkBytes(c) + rest;
    var len := |c.data|;
    WordRoundTrip(len);
    assert b[..4] == Word(len);
    assert b[4..8 + len] == c.tag + c.data;
    assert b[8 + len..12 + len] == CrcBytes(Crc.Checksum(c.tag + c.data));
    assert b[12 + len..] == rest;
  }

  // ----- filtered rows

  function Concat(lines: seq<seq<Byte>>): seq<Byte> {
    if lines == [] then [] else lines[0] + Concat(lines[1..])
  }

  lemma {:induction false} ConcatSnoc(lines: seq<seq<Byte>>, line: seq<Byte>)
    ensures Concat(lines + [line]) == Concat(lines) + line
  {
    if lines == [] {
      assert lines + [line] == [line];
    } else {
      ConcatSnoc(lines[1..], line);
      assert (lines + [line])[1..] == lines[1..] + [line];
    }
  }

  /** A row as it stands in the stream: its filter byte, then the filtered bytes. */
  function Line(f: FilterType, row: seq<Byte>, prior: seq<Byte>, n: nat): (line: seq<Byte>)
    requires 1 <= n && |prior| == |row|
    ensures |line| == |row| + 1
  {
    [f] + Filtered(f, row, prior, n)
  }

  /** The row above row `j`; zero above the first. */
  function Upper(rows: seq<seq<Byte>>, rowBytes: nat, j: nat): (row: seq<Byte>)
    requires j <= |rows|
  {
    if j == 0 then ZeroRow(rowBytes) else rows[j - 1]
  }

  ghost predicate SameLength(rows: seq<seq<Byte>>, rowBytes: nat) {
    forall j :: 0 <= j < |rows| ==> |rows[j]| == rowBytes
  }

  /** The first rows as they stand in the stream, each with the filter type the encoder gave it. */
  ghost predicate Lines(lines: seq<seq<Byte>>, types: seq<FilterType>, rows: seq<seq<Byte>>, rowBytes: nat, n: nat)
    requires 1 <= n
  {
    && |types| == |lines| <= |rows| && SameLength(rows, rowBytes)
    && forall j :: 0 <= j < |lines| ==> IsLine(lines[j], types[j], rows, rowBytes, n, j)
  }

  ghost predicate IsLine(line: seq<Byte>, f: FilterType, rows: seq<seq<Byte>>, rowBytes: nat, n: nat, j: nat)
    requires 1 <= n && j < |rows| && SameLength(rows, rowBytes)
  {
    line == Line(f, rows[j], Upper(rows, rowBytes, j), n)
  }

  /** The decoder recovers every row, each from the one above it. */
  lemma {:induction false} ReadLines(lines: seq<seq<Byte>>, types: seq<FilterType>, rows: seq<seq<Byte>>, rowBytes: nat,
                                     n: nat, j: nat)
    requires 1 <= n && Lines(lines, types, rows, rowBytes, n) && |lines| == |rows| && j <= |rows|
    ensures |Upper(rows, rowBytes, j)| == rowBytes
    ensures ReadRows(Concat(lines[j..]), rowBytes, n, |rows| - j, Upper(rows, rowBytes, j)) == Some(rows[j..])
    decreases |rows| - j
  {
    hide Unfilter, Filtered;
    if j < |rows| {
      var prior := Upper(rows, rowBytes, j);
      var line, later := lines[j], Concat(lines[j + 1..]);
      assert IsLine(line, types[j], rows, rowBytes, n, j);
      assert lines[j..][1..] == lines[j + 1..];
      var b := Concat(lines[j..]);
      assert b == line + later;
      assert b[0] == types[j] && b[1..rowBytes + 1] == Filtered(types[j], rows[j], prior, n) && b[rowBytes + 1..] == later;
      UnfilterFiltered(types[j], rows[j], prior, n, 0);
      assert rows[j][..0] == [];
      ReadLines(lines, types, rows, rowBytes, n, j + 1);
      assert rows[j..] == [rows[j]] + rows[j + 1..];
    } else {
      assert lines[j..] == [] && rows[j..] == [];
    }
  }

  /** The rows of the written image, top first. */
  function Rows(pixels: seq<Byte>, stride: nat, width: nat, height: nat, flip: bool): (rows: seq<seq<Byte>>)
    requires FitsPixels(pixels, stride, width, height)
    ensures |rows| == height
  {
    seq(height, j requires 0 <= j < height => Row(pixels, stride, width, height, flip, j))
  }

  /** The filter type of each row is the forced one, or the cheapest by estimate. */
  ghost predicate FilterChoice(types: seq<FilterType>, rows: seq<seq<Byte>>, rowBytes: nat, n: nat, forced: int)
    requires 1 <= n && |types| <= |rows| && SameLength(rows, rowBytes)
  {
    forall j :: 0 <= j < |types| ==>
      IsChoice(types[j], rows, rowBytes, n, j, forced)
  }

  ghost predicate IsChoice(f: FilterType, rows: seq<seq<Byte>>, rowBytes: nat, n: nat, j: nat, forced: int)
    requires 1 <= n && j < |rows| && SameLength(rows, rowBytes)
  {
    if forced > -1 then f == forced else Cheapest(rows[j], Upper(rows, rowBytes, j), n, f, 5)
  }

  lemma LinesSnoc(lines: seq<seq<Byte>>, types: seq<FilterType>, rows: seq<seq<Byte>>, rowBytes: nat, n: nat,
                  line: seq<Byte>, f: FilterType, forced: int)
    requires 1 <= n && Lines(lines, types, rows, rowBytes, n) && |lines| < |rows|
    requires IsLine(line, f, rows, rowBytes, n, |lines|) && IsChoice(f, rows, rowBytes, n, |lines|, forced)
    requires FilterChoice(types, rows, rowBytes, n, forced)
    ensures Lines(lines + [line], types + [f], rows, rowBytes, n)
    ensures FilterChoice(types + [f], rows, rowBytes, n, forced)
  {
    hide IsLine, IsChoice;
  }

  lemma NoLines(pixels: seq<Byte>, stride: nat, width: nat, height: nat, flip: bool, n: nat, forced: int)
    requires 1 <= n && FitsPixels(pixels, stride, width, height)
    ensures Lines([], [], Rows(pixels, stride, width, height, flip), width, n)
    ensures FilterChoice([], Rows(pixels, stride, width, height, flip), width, n, forced)
  {
    hide Row;
  }

  lemma RowsAt(pixels: seq<Byte>, stride: nat, width: nat, height: nat, flip: bool, j: nat)
    requires FitsPixels(pixels, stride, width, height) && j < height
    ensures var rows := Rows(pixels, stride, width, height, flip);
            SameLength(rows, width) && rows[j] == Row(pixels, stride, width, height, flip, j)
            && Upper(rows, width, j) == Prior(pixels, stride, width, height, flip, j)
  {
    hide Row;
  }

  method FilterImage(pixels: seq<Byte>, stride: nat, width: nat, height: nat, n: nat, forced: int, flip: bool)
    returns (filt: array<Byte>, ghost lines: seq<seq<Byte>>, ghost types: seq<FilterType>)
    requires 1 <= n <= width && FitsPixels(pixels, stride, width, height) && forced <= 4
    ensures fresh(filt) && filt.Length == height * (width + 1) && filt[..] == Concat(lines)
    ensures Lines(lines, types, Rows(pixels, stride, width, height, flip), width, n) && |lines| == height
    ensures FilterChoice(types, Rows(pixels, stride, width, height, flip), width, n, forced)
  {
    hide Row, Prior, Upper, Filtered, Cheapest, Lines, FilterChoice, Rows;
    ghost var rows := Rows(pixels, stride, width, height, flip);
    filt := new Byte[height * (width + 1)];
    var line := new Byte[width];
    lines, types := [], [];
    NoLines(pixels, stride, width, height, flip, n, forced);
    RowsAt(pixels, stride, width, height, flip, 0);
    for j := 0 to height
      invariant |types| == |lines| == j && SameLength(rows, width)
      invariant Lines(lines, types, rows, width, n) && FilterChoice(types, rows, width, n, forced)
      invariant j * (width + 1) <= filt.Length && filt[..j * (width + 1)] == Concat(lines)
    {
      var filterType := FilterRow(pixels, stride, width, height, j, n, forced, flip, line);
      StoreLine(filt, j, width, height, filterType, line);
      ghost var l := [filterType] + line[..];
      ConcatSnoc(lines, l);
      RowsAt(pixels, stride, width, height, flip, j);
      LinesSnoc(lines, types, rows, width, n, l, filterType, forced);
      lines, types := lines + [l], types + [filterType];
    }
    assert filt[..] == filt[..height * (width + 1)];
  }

  /** Row `j` of the buffer: the filter byte, then the line. */
  method StoreLine(filt: array<Byte>, j: nat, width: nat, height: nat, filterType: FilterType, line: array<Byte>)
    requires j < height && filt.Length == height * (width + 1) && line.Length == width && line != filt
    modifies filt
    ensures j * (width + 1) <= (j + 1) * (width + 1) <= filt.Length
    ensures filt[..(j + 1) * (width + 1)] == old(filt[..j * (width + 1)]) + ([filterType] + line[..])
  {
    RowFits(j, width + 1, height);
    var p := j * (width + 1);
    filt[p] := filterType;
    for i := 0 to width
      invariant filt[..p] == old(filt[..p]) && filt[p] == filterType
      invariant filt[p + 1..p + 1 + i] == line[..i]
    {
      filt[p + 1 + i] := line[i];
      assert filt[p + 1..p + 1 + i + 1] == filt[p + 1..p + 1 + i] + [line[i]];
      assert line[..i + 1] == line[..i] + [line[i]];
    }
    assert filt[..p + 1 + width] == filt[..p] + [filt[p]] + filt[p + 1..p + 1 + width];
  }

  lemma RowFits(j: nat, w: nat, height: nat)
    requires j < height
    ensures (j + 1) * w == j * w + w <= height * w
  {
    assert height * w == (j + 1) * w + (height - j - 1) * w;
  }

  // ----- the file

  /** `stbi_write_png_to_mem`. The precondition is the C code's: every size is an int. */
  method WritePng(pixels: seq<Byte>, strideBytes: nat, x: nat, y: nat, n: nat, forceFilter: int, flip: bool, level: int)
    returns (out: seq<Byte>, announced: nat, ghost lines: seq<seq<Byte>>, ghost types: seq<FilterType>,
             ghost ts: seq<Deflate.Token>)
    requires x >= 1 && y >= 1 && 1 <= n <= 4
    requires FitsPixels(pixels, Stride(strideBytes, x, n), x * n, y)
    requires x <= 0x7fff_ffff && y <= 0x7fff_ffff && Zlib.StoredSize(y * (x * n + 1)) + 4 + 57 <= 0x7fff_ffff
    ensures |out| == announced >= 57
    ensures out[..16] == [137, 80, 78, 71, 13, 10, 26, 10, 0, 0, 0, 13, 73, 72, 68, 82]
    ensures out[|out| - 12..] == [0, 0, 0, 0, 73, 69, 78, 68, 0xAE, 0x42, 0x60, 0x82]
    ensures Decode(out) == Some(Image(x, y, n, Rows(pixels, Stride(strideBytes, x, n), x * n, y, flip)))
    ensures ShowsPixels(Decode(out).value, pixels, strideBytes, x, y, n, flip)
    ensures FilteredAs(lines, types, Rows(pixels, Stride(strideBytes, x, n), x * n, y, flip), x * n, n, forceFilter)
    ensures CompressedAs(Concat(lines), level, ts) && |Stream(Concat(lines), ts)| < WORD32
    ensures out == SIGNATURE + ChunkBytes(Chunk(IHDR, HeaderData(x, y, n)))
                   + ChunkBytes(Chunk(IDAT, Stream(Concat(lines), ts))) + ChunkBytes(Chunk(IEND, []))
  {
    hide Lines, FilterChoice, SameLength, ShowsPixels, Concat, Rows, Decode, ZlibDecode, ChunkBytes, HeaderData, CompressedAs, Stream;
    var stride := Stride(strideBytes, x, n);
    var forced := if forceFilter >= 5 then -1 else forceFilter;
    assert n <= x * n;
    var filt;
    filt, lines, types := FilterImage(pixels, stride, x * n, y, n, forced, flip);
    assert filt.Length > 0;
    var zlib;
    zlib, ts := CompressRows(filt[..], level);
    announced := 8 + 12 + 13 + 12 + |zlib| + 12;
    out := WriteFile(x, y, n, zlib);
    DecodeFile(x, y, n, zlib, lines, types, Rows(pixels, stride, x * n, y, flip));
    RowsShow(pixels, strideBytes, x, y, n, flip);
    FileEnds(HeaderData(x, y, n), zlib);
  }

  /** The image is the caller's pixels, row by row, from the bottom up where they are flipped. */
  predicate ShowsPixels(image: Image, pixels: seq<Byte>, strideBytes: nat, x: nat, y: nat, n: nat, flip: bool) {
    && image.width == x && image.height == y && image.channels == n && |image.rows| == y
    && forall j :: 0 <= j < y ==>
         && |image.rows[j]| == x * n
         && IsStretch(image.rows[j], pixels,
                      (if strideBytes == 0 then x * n else strideBytes) * (if flip then y - 1 - j else j))
  }

  lemma RowsShow(pixels: seq<Byte>, strideBytes: nat, x: nat, y: nat, n: nat, flip: bool)
    requires FitsPixels(pixels, Stride(strideBytes, x, n), x * n, y)
    ensures ShowsPixels(Image(x, y, n, Rows(pixels, Stride(strideBytes, x, n), x * n, y, flip)), pixels, strideBytes, x, y, n, flip)
  {
    hide FitsPixels, RowStart, Row, IsStretch;
    var stride := Stride(strideBytes, x, n);
    forall j | 0 <= j < y
      ensures Rows(pixels, stride, x * n, y, flip)[j] == Row(pixels, stride, x * n, y, flip, j)
    {
      RowsAt(pixels, stride, x * n, y, flip, j);
    }
  }

  /** Flipping turns the rows around. */
  lemma FlippedRows(a: Image, b: Image, pixels: seq<Byte>, strideBytes: nat, x: nat, y: nat, n: nat)
    requires ShowsPixels(a, pixels, strideBytes, x, y, n, false) && ShowsPixels(b, pixels, strideBytes, x, y, n, true)
    ensures |a.rows| == |b.rows| == y && forall j :: 0 <= j < y ==> b.rows[j] == a.rows[y - 1 - j]
  {
    forall j | 0 <= j < y
      ensures b.rows[j] == a.rows[y - 1 - j]
    {
      var k := y - 1 - j;
      assert |b.rows[j]| == |a.rows[k]| == x * n;
      forall i | 0 <= i < x * n
        ensures b.rows[j][i] == a.rows[k][i]
      {
      }
    }
  }

  /** A stride of zero stands for rows without gaps. */
  function Stride(strideBytes: nat, x: nat, n: nat): nat {
    if strideBytes == 0 then x * n else strideBytes
  }

  /** The lines are the filtered rows, each under the filter type chosen for it. */
  ghost predicate FilteredAs(lines: seq<seq<Byte>>, types: seq<FilterType>, rows: seq<seq<Byte>>, rowBytes: nat, n: nat,
                             forceFilter: int)
    requires 1 <= n
  {
    && |lines| == |rows| && Lines(lines, types, rows, rowBytes, n)
    && FilterChoice(types, rows, rowBytes, n, if forceFilter >= 5 then -1 else forceFilter)
  }

  /** The tokens are those the compressor chooses at this level. */
  ghost predicate CompressedAs(data: seq<Byte>, level: int, ts: seq<Deflate.Token>) {
    Zlib.Parse(data, if level < 5 then 5 else level, ts) && Deflate.Encodable(ts)
  }

  /** The compressed stream of those tokens. */
  function Stream(data: seq<Byte>, ts: seq<Deflate.Token>): seq<Byte>
    requires Deflate.Encodable(ts)
  {
    Zlib.HEADER + Zlib.Body(data, ts) + AdlerTrailer(data)
  }

  method CompressRows(filt: seq<Byte>, level: int) returns (zlib: seq<Byte>, ghost ts: seq<Deflate.Token>)
    requires filt != []
    ensures ZlibDecode(zlib) == Some(filt) && |zlib| <= Zlib.StoredSize(|filt|) + 4
    ensures CompressedAs(filt, level, ts) && zlib == Stream(filt, ts)
  {
    hide Zlib.Parse, Zlib.Body, Deflate.Replays, ZlibDecode, AdlerTrailer, Deflate.Encodable;
    zlib, ts := Zlib.Compress(filt, level);
  }

  /** Signature and the three chunks. */
  method WriteFile(x: nat, y: nat, n: nat, zlib: seq<Byte>) returns (out: seq<Byte>)
    requires x < WORD32 && y < WORD32 && 1 <= n <= 4 && |zlib| < WORD32
    ensures out == SIGNATURE + ChunkBytes(Chunk(IHDR, HeaderData(x, y, n))) + ChunkBytes(Chunk(IDAT, zlib))
                   + ChunkBytes(Chunk(IEND, []))
  {
    hide ChunkBytes, HeaderData;
    out := WriteChunk(SIGNATURE, IHDR, HeaderData(x, y, n));
    out := WriteChunk(out, IDAT, zlib);
    out := WriteChunk(out, IEND, []);
  }

  /** One chunk; its checksum runs over the last bytes written. */
  method WriteChunk(o: seq<Byte>, tag: seq<Byte>, data: seq<Byte>) returns (o': seq<Byte>)
    requires |tag| == 4 && |data| < WORD32
    ensures o' == o + ChunkBytes(Chunk(tag, data))
  {
    hide Word, CrcBytes, Crc.Checksum;
    o' := o + Word(|data|) + tag + data;
    assert o'[|o'| - |data| - 4..] == tag + data;
    var crc := Crc.Crc32(o'[|o'| - |data| - 4..]);
    o' := o' + CrcBytes(crc);
  }

  /** The start and the end of every file, byte by byte: signature and header announcement; the end chunk. */
  lemma FileEnds(header: seq<Byte>, zlib: seq<Byte>)
    requires |header| == 13 && |zlib| < WORD32
    ensures
      var out := SIGNATURE + ChunkBytes(Chunk(IHDR, header)) + ChunkBytes(Chunk(IDAT, zlib)) + ChunkBytes(Chunk(IEND, []));
      && out[..16] == [137, 80, 78, 71, 13, 10, 26, 10, 0, 0, 0, 13, 73, 72, 68, 82]
      && out[16..29] == header && out[37..41] == [73, 68, 65, 84] && out[41..41 + |zlib|] == zlib
      && out[|out| - 12..] == [0, 0, 0, 0, 73, 69, 78, 68, 0xAE, 0x42, 0x60, 0x82]
  {
    hide CrcBytes, Crc.Checksum, Word;
    EndChunk();
    assert Word(13) == [0, 0, 0, 13] by { SmallWord(); }
    var start := SIGNATURE + ChunkBytes(Chunk(IHDR, header));
    assert start[..16] == [137, 80, 78, 71, 13, 10, 26, 10, 0, 0, 0, 13, 73, 72, 68, 82];
    assert start[16..29] == header && |start| == 33;
    var data := ChunkBytes(Chunk(IDAT, zlib));
    assert data[4..8] == [73, 68, 65, 84] && data[8..8 + |zlib|] == zlib;
    var out := start + data + ChunkBytes(Chunk(IEND, []));
    assert out[37..41] == data[4..8] && out[41..41 + |zlib|] == data[8..8 + |zlib|];
    assert out[..16] == start[..16] && out[16..29] == start[16..29];
  }

  lemma SmallWord()
    ensures Word(13) == [0, 0, 0, 13] && Word(0) == [0, 0, 0, 0]
  {
  }

  /** The end chunk with its checksum. */
  lemma EndChunk()
    ensures ChunkBytes(Chunk(IEND, [])) == [0, 0, 0, 0, 73, 69, 78, 68, 0xAE, 0x42, 0x60, 0x82]
  {
    hide CrcBytes, Crc.Checksum, Word;
    SmallWord();
    Crc.EndChecksum();
    EndCrcBytes();
    assert IEND + [] == [73, 69, 78, 68];
    hide Crc.OfWord, Crc.WordOf, BytesBits;
    assert [0, 0, 0, 0] + IEND + [] + [0xAE, 0x42, 0x60, 0x82] == [0, 0, 0, 0, 73, 69, 78, 68, 0xAE, 0x42, 0x60, 0x82];
  }

  lemma EndCrcBytes()
    ensures CrcBytes(Crc.OfWord(0xAE426082)) == [0xAE, 0x42, 0x60, 0x82]
  {
    hide BytesBits, BitsBytes, Crc.OfWord;
    Crc.EndWord();
    Crc.RegisterBytes(0x82, 0x60, 0x42, 0xAE);
    BytesRoundTrip([0x82, 0x60, 0x42, 0xAE]);
  }

  const CTYPE: seq<int> := [-1, 0, 4, 2, 6]

  function HeaderData(x: nat, y: nat, n: nat): (d: seq<Byte>)
    requires x < WORD32 && y < WORD32 && 1 <= n <= 4
    ensures |d| == 13 && d[..4] == Word(x) && d[4..8] == Word(y)
    ensures d[8..] == [8, if n == 1 then 0 else if n == 2 then 4 else if n == 3 then 2 else 6, 0, 0, 0]
  {
    Word(x) + Word(y) + [8, CTYPE[n], 0, 0, 0]
  }

  lemma ReadHeaderData(x: nat, y: nat, n: nat)
    requires x < WORD32 && y < WORD32 && 1 <= n <= 4
    ensures ReadHeader(Chunk(IHDR, HeaderData(x, y, n))) == Some(Header(x, y, n))
  {
    hide Word, ReadWord;
    WordRoundTrip(x);
    WordRoundTrip(y);
    var d := HeaderData(x, y, n);
    assert d[..4] == Word(x) && d[4..8] == Word(y) && d[8] == 8 && d[9] == CTYPE[n] && d[10..] == [0, 0, 0];
  }

  lemma ReadThreeChunks(a: Chunk, b: Chunk, c: Chunk)
    requires |a.tag| == |b.tag| == |c.tag| == 4 && |a.data| < WORD32 && |b.data| < WORD32 && |c.data| < WORD32
    ensures ReadChunks(ChunkBytes(a) + ChunkBytes(b) + ChunkBytes(c)) == Some([a, b, c])
  {
    hide ChunkBytes, ReadChunk;
    var wa, wb, wc := ChunkBytes(a), ChunkBytes(b), ChunkBytes(c);
    assert wa + wb + wc == wa + (wb + wc) && wc == wc + [];
    ReadChunkBytes(a, wb + wc);
    ReadChunkBytes(b, wc);
    ReadChunkBytes(c, []);
    assert ReadChunks([]) == Some([]) && [c] + [] == [c];
    assert ReadChunks(wc) == Some([c]);
    assert ReadChunks(wb + wc) == Some([b] + [c]);
    assert [a] + ([b] + [c]) == [a, b, c];
  }

  /** The decoder recovers the image from the three chunks. */
  lemma DecodeFile(x: nat, y: nat, n: nat, zlib: seq<Byte>, lines: seq<seq<Byte>>, types: seq<FilterType>, rows: seq<seq<Byte>>)
    requires x < WORD32 && y < WORD32 && 1 <= n <= 4 && |zlib| < WORD32
    requires Lines(lines, types, rows, x * n, n) && |lines| == |rows| == y && ZlibDecode(zlib) == Some(Concat(lines))
    ensures Decode(SIGNATURE + ChunkBytes(Chunk(IHDR, HeaderData(x, y, n))) + ChunkBytes(Chunk(IDAT, zlib))
                   + ChunkBytes(Chunk(IEND, []))) == Some(Image(x, y, n, rows))
  {
    hide ChunkBytes, ReadChunks, ReadHeader, HeaderData, Lines, Concat, ReadRows, ZlibDecode;
    var header, data, end := Chunk(IHDR, HeaderData(x, y, n)), Chunk(IDAT, zlib), Chunk(IEND, []);
    var content := ChunkBytes(header) + ChunkBytes(data) + ChunkBytes(end);
    var file := SIGNATURE + ChunkBytes(header) + ChunkBytes(data) + ChunkBytes(end);
    assert file == SIGNATURE + content;
    assert file[..8] == SIGNATURE && file[8..] == content;
    ReadThreeChunks(header, data, end);
    ReadHeaderData(x, y, n);
    ReadLines(lines, types, rows, x * n, n, 0);
    assert lines[0..] == lines && rows[0..] == rows;
  }
}

/** Writing sparse images, to say what the parser must find in a well-formed one. */
module SparseEncoding {
  import opened Bytes
  import opened Files
  import opened SparseFormat
  import opened SparseLoad

  /** A piece of the image; sizes in blocks. */
  datatype Segment = RawSegment(data: bytes) | FillSegment(pattern: bytes, blocks: nat) | DontCareSegment(blocks: nat)

  /** The free choices of a writer: block size, checksum, and header extensions to skip. */
  datatype Layout = Layout(blkSz: nat, totalBlks: nat, checksum: nat, headerExt: bytes, chunkExt: bytes)

  function Blocks(l: Layout, s: Segment): nat
    requires 0 < l.blkSz
  {
    match s
    case RawSegment(data) => |data| / l.blkSz
    case FillSegment(_, n) => n
    case DontCareSegment(n) => n
  }

  function Payload(s: Segment): bytes {
    match s
    case RawSegment(data) => data
    case FillSegment(pattern, _) => pattern
    case DontCareSegment(_) => []
  }

  function Kind(s: Segment): nat {
    match s
    case RawSegment(_) => 0xCAC1
    case FillSegment(_, _) => 0xCAC2
    case DontCareSegment(_) => 0xCAC3
  }

  function ChunkHeader(l: Layout, s: Segment): (r: bytes)
    requires 0 < l.blkSz
    ensures |r| == CHUNK_HEADER_SIZE
  {
    LittleEndianBytes(Kind(s), 2) + [0, 0] + LittleEndianBytes(Blocks(l, s), 4)
    + LittleEndianBytes(CHUNK_HEADER_SIZE + |l.chunkExt| + |Payload(s)|, 4)
  }

  function EncodeSegment(l: Layout, s: Segment): bytes
    requires 0 < l.blkSz
  {
    ChunkHeader(l, s) + l.chunkExt + Payload(s)
  }

  function EncodeSegments(l: Layout, segments: seq<Segment>): bytes
    requires 0 < l.blkSz
  {
    if |segments| == 0 then []
        else EncodeSegments(l, segments[..|segments| - 1]) + EncodeSegment(l, segments[|segments| - 1])
  }

  function EncodeHeader(l: Layout, n: nat): (r: bytes)
    ensures |r| == HEADER_SIZE
  {
    [0x3a, 0xff, 0x26, 0xed, 1, 0, 0, 0]
    + LittleEndianBytes(HEADER_SIZE + |l.headerExt|, 2) + LittleEndianBytes(CHUNK_HEADER_SIZE + |l.chunkExt|, 2)
    + LittleEndianBytes(l.blkSz, 4) + LittleEndianBytes(l.totalBlks, 4) + LittleEndianBytes(n, 4)
    + LittleEndianBytes(l.checksum, 4)
  }

  function EncodeImage(l: Layout, segments: seq<Segment>): bytes
    requires 0 < l.blkSz
  {
    EncodeHeader(l, |segments|) + l.headerExt + EncodeSegments(l, segments)
  }

  /** Every field fits its width, and raw data comes in whole blocks. */
  predicate WellFormed(l: Layout, segments: seq<Segment>) {
    && 0 < l.blkSz < 0x1_0000_0000 && l.totalBlks < 0x1_0000_0000 && l.checksum < 0x1_0000_0000
    && |segments| < 0x1_0000_0000
    && HEADER_SIZE + |l.headerExt| < 0x1_0000 && CHUNK_HEADER_SIZE + |l.chunkExt| < 0x1_0000
    && forall i :: 0 <= i < |segments| ==> SegmentFits(l, segments[i])
  }

  predicate SegmentFits(l: Layout, s: Segment)
    requires 0 < l.blkSz
  {
    && Blocks(l, s) < 0x1_0000_0000
    && CHUNK_HEADER_SIZE + |l.chunkExt| + |Payload(s)| < 0x1_0000_0000
    && (s.FillSegment? ==> |s.pattern| == 4)
    && (s.RawSegment? ==> |s.data| == Blocks(l, s) * l.blkSz)
  }

  /** The chunk the parser finds for a segment. */
  predicate Finds(content: bytes, l: Layout, s: Segment, c: Chunk)
    requires 0 < l.blkSz
  {
    match s
    case RawSegment(data) =>
      && c.RawChunk? && c.size == |data| && c.offset + c.size <= |content|
      && content[c.offset..c.offset + c.size] == data
    case FillSegment(pattern, blocks) => c == FillChunk(LittleEndian(pattern), blocks * l.blkSz)
    case DontCareSegment(blocks) => c == DontCareChunk(blocks * l.blkSz)
  }

  lemma Widths()
    ensures Power256(2) == 0x1_0000 && Power256(4) == 0x1_0000_0000
  {
    assert Power256(1) == 256 && Power256(3) == 0x100_0000;
  }

  lemma HeaderDecodes(l: Layout, segments: seq<Segment>)
    requires WellFormed(l, segments)
    ensures DecodeHeader(EncodeHeader(l, |segments|))
         == SparseHeader(HEADER_MAGIC, 1, 0, HEADER_SIZE + |l.headerExt|, CHUNK_HEADER_SIZE + |l.chunkExt|, l.blkSz,
                         l.totalBlks, |segments|, l.checksum)
  {
    hide LittleEndianBytes, LittleEndian, Power256, SegmentFits;
    Widths();
    var b := EncodeHeader(l, |segments|);
    MagicReads();
    var m := [0x3a, 0xff, 0x26, 0xed, 1, 0, 0, 0];
    assert m[0..4] == [0x3a, 0xff, 0x26, 0xed] && m[4..6] == [1, 0] && m[6..8] == [0, 0];
    HeaderFields(m, LittleEndianBytes(HEADER_SIZE + |l.headerExt|, 2),
                 LittleEndianBytes(CHUNK_HEADER_SIZE + |l.chunkExt|, 2),
                 LittleEndianBytes(l.blkSz, 4), LittleEndianBytes(l.totalBlks, 4), LittleEndianBytes(|segments|, 4),
                 LittleEndianBytes(l.checksum, 4));
    FieldAt(b, 8, HEADER_SIZE + |l.headerExt|, 2);
    FieldAt(b, 10, CHUNK_HEADER_SIZE + |l.chunkExt|, 2);
    FieldAt(b, 12, l.blkSz, 4);
    FieldAt(b, 16, l.totalBlks, 4);
    FieldAt(b, 20, |segments|, 4);
    FieldAt(b, 24, l.checksum, 4);
  }

  /** The magic number and the version, as they stand in the file. */
  lemma MagicReads()
    ensures LittleEndian([0x3a, 0xff, 0x26, 0xed]) == HEADER_MAGIC
    ensures LittleEndian([1, 0]) == 1 && LittleEndian([0, 0]) == 0
  {
    assert [0x3a, 0xff, 0x26, 0xed][1..] == [0xff, 0x26, 0xed] && [0xff, 0x26, 0xed][1..] == [0x26, 0xed];
    assert [0x26, 0xed][1..] == [0xed] && [0xed][1..] == [];
    assert [1, 0][1..] == [0] && [0, 0][1..] == [0] && [0][1..] == [];
  }

  /** Where the fields of a header are. */
  lemma HeaderFields(a: bytes, d: bytes, e: bytes, f: bytes, g: bytes, h: bytes, k: bytes)
    requires |a| == 8 && |d| == |e| == 2 && |f| == |g| == |h| == |k| == 4
    ensures var s := a + d + e + f + g + h + k;
            && |s| == 28 && s[0..4] == a[0..4] && s[4..6] == a[4..6] && s[6..8] == a[6..8] && s[8..10] == d
            && s[10..12] == e && s[12..16] == f && s[16..20] == g && s[20..24] == h && s[24..28] == k
  {
  }

  /** A field read where it was written. */
  lemma FieldAt(b: bytes, at: nat, v: nat, w: nat)
    requires at + w <= |b| && b[at..at + w] == LittleEndianBytes(v, w) && v < Power256(w)
    ensures LittleEndian(b[at..at + w]) == v
  {
    LittleEndianRoundTrip(v, w);
  }

  lemma ChunkHeaderDecodes(l: Layout, s: Segment)
    requires 0 < l.blkSz && SegmentFits(l, s)
    ensures var b := ChunkHeader(l, s);
            && HalfWord(b, 0) == Kind(s) && Word(b, 4) == Blocks(l, s)
            && Word(b, 8) == CHUNK_HEADER_SIZE + |l.chunkExt| + |Payload(s)|
  {
    hide LittleEndianBytes, LittleEndian, Power256, Blocks, Payload;
    Widths();
    var b := ChunkHeader(l, s);
    FieldAt(b, 0, Kind(s), 2);
    FieldAt(b, 4, Blocks(l, s), 4);
    FieldAt(b, 8, CHUNK_HEADER_SIZE + |l.chunkExt| + |Payload(s)|, 4);
  }

  /** The parser finds a segment where it was written, and stops right after it. */
  lemma SegmentParses(content: bytes, pos: nat, l: Layout, s: Segment, h: SparseHeader)
    requires 0 < l.blkSz && SegmentFits(l, s)
    requires h.chunkHdrSz == CHUNK_HEADER_SIZE + |l.chunkExt| && h.blkSz == l.blkSz
    requires pos + |EncodeSegment(l, s)| <= |content|
    requires content[pos..pos + |EncodeSegment(l, s)|] == EncodeSegment(l, s)
    ensures ParseChunk(content, Posix, pos, h).Some?
    ensures Finds(content, l, s, ParseChunk(content, Posix, pos, h).value.0)
    ensures ParseChunk(content, Posix, pos, h).value.1 == pos + |EncodeSegment(l, s)|
  {
    hide LittleEndianBytes, LittleEndian, Blocks, ChunkHeader;
    var enc := EncodeSegment(l, s);
    assert enc[..CHUNK_HEADER_SIZE] == ChunkHeader(l, s);
    SliceOfSlice(content, pos, pos + |enc|, 0, CHUNK_HEADER_SIZE);
    assert Available(content, pos, CHUNK_HEADER_SIZE) == ChunkHeader(l, s);
    ChunkHeaderDecodes(l, s);
    var body := pos + CHUNK_HEADER_SIZE + |l.chunkExt|;
    SliceOfSlice(content, pos, pos + |enc|, body - pos, |enc|);
    assert content[body..pos + |enc|] == Payload(s);
    if s.FillSegment? {
      assert Available(content, body, 4) == Payload(s);
    }
    BlocksAre(l, s);
  }

  lemma BlocksAre(l: Layout, s: Segment)
    requires 0 < l.blkSz
    ensures s.FillSegment? ==> Blocks(l, s) == s.blocks
    ensures s.DontCareSegment? ==> Blocks(l, s) == s.blocks
  {
  }

  /** Parsing a well-formed image finds every segment, in order. */
  lemma {:induction false} SegmentsParse(content: bytes, pos: nat, l: Layout, segments: seq<Segment>, h: SparseHeader)
    requires 0 < l.blkSz && forall i :: 0 <= i < |segments| ==> SegmentFits(l, segments[i])
    requires h.chunkHdrSz == CHUNK_HEADER_SIZE + |l.chunkExt| && h.blkSz == l.blkSz
    requires pos + |EncodeSegments(l, segments)| <= |content|
    requires content[pos..pos + |EncodeSegments(l, segments)|] == EncodeSegments(l, segments)
    ensures var r := ParseChunks(content, Posix, pos, h, |segments|);
            && r.Some? && r.value.1 == pos + |EncodeSegments(l, segments)|
            && forall i :: 0 <= i < |segments| ==> Finds(content, l, segments[i], r.value.0[i])
  {
    hide SegmentFits, EncodeSegment, Finds, ParseChunk;
    if |segments| > 0 {
      var n := |segments| - 1;
      var before, last := EncodeSegments(l, segments[..n]), EncodeSegment(l, segments[n]);
      assert EncodeSegments(l, segments) == before + last;
      SliceOfSlice(content, pos, pos + |before + last|, 0, |before|);
      SliceOfSlice(content, pos, pos + |before + last|, |before|, |before + last|);
      SegmentsParse(content, pos, l, segments[..n], h);
      SegmentParses(content, pos + |before|, l, segments[n], h);
    }
  }

  /** The parser inverts the writer on every well-formed image. */
  lemma ImageParses(l: Layout, segments: seq<Segment>)
    requires WellFormed(l, segments)
    ensures var content := EncodeImage(l, segments);
            && FileChunks(content, Posix).Some? && |FileChunks(content, Posix).value| == |segments|
            && forall i :: 0 <= i < |segments| ==> Finds(content, l, segments[i], FileChunks(content, Posix).value[i])
  {
    hide EncodeHeader, EncodeSegments, Finds, SegmentFits, ParseChunks, DecodeHeader;
    var content := EncodeImage(l, segments);
    var header, body := EncodeHeader(l, |segments|), EncodeSegments(l, segments);
    assert Available(content, 0, HEADER_SIZE) == header;
    HeaderDecodes(l, segments);
    var pos := HEADER_SIZE + |l.headerExt|;
    assert content[pos..pos + |body|] == body;
    SegmentsParse(content, pos, l, segments, DecodeHeader(header));
  }

  // ----- Headers

  /** A header is found exactly in 28 bytes and more that start with the magic number and version 1.0. */
  lemma HeaderFoundIff(content: bytes, kind: FileKind)
    ensures ParseHeader(content, kind).Some?
        <==> |content| >= 28 && content[..8] == [0x3a, 0xff, 0x26, 0xed, 1, 0, 0, 0]
    ensures ParseHeader(content, kind).Some? ==>
              var size := content[8] as nat + 256 * content[9] as nat;
              ParseHeader(content, kind).value.1 == if kind == Posix && size > 28 then size else 28
  {
    hide LittleEndian;
    var b := Available(content, 0, HEADER_SIZE);
    if |content| >= 28 {
      assert b == content[..28];
      var h := DecodeHeader(b);
      assert b[0..4] == [b[0], b[1], b[2], b[3]];
      assert b[4..6] == [b[4], b[5]] && b[6..8] == [b[6], b[7]] && b[8..10] == [b[8], b[9]];
      MagicReads();
      WordIs(b[0], b[1], b[2], b[3]);
      HalfWordIs(b[4], b[5]);
      HalfWordIs(b[6], b[7]);
      HalfWordIs(b[8], b[9]);
      assert content[..8] == b[..8] == b[0..4] + b[4..6] + b[6..8];
    }
  }

  lemma WordIs(a: byte, b: byte, c: byte, d: byte)
    ensures LittleEndian([a, b, c, d]) == HEADER_MAGIC <==> [a, b, c, d] == [0x3a, 0xff, 0x26, 0xed]
  {
    assert LittleEndian([d]) == d by { assert [d][1..] == []; }
    assert LittleEndian([c, d]) == c + 256 * d by { assert [c, d][1..] == [d]; }
    assert LittleEndian([b, c, d]) == b + 256 * (c + 256 * d) by { assert [b, c, d][1..] == [c, d]; }
    assert [a, b, c, d][1..] == [b, c, d];
    hide LittleEndian;
    OnlyMagic(a, b, c, d);
  }

  lemma OnlyMagic(a: byte, b: byte, c: byte, d: byte)
    ensures a + 256 * (b + 256 * (c + 256 * d)) == HEADER_MAGIC <==> a == 0x3a && b == 0xff && c == 0x26 && d == 0xed
  {
  }

  lemma HalfWordIs(a: byte, b: byte)
    ensures LittleEndian([a, b]) == a as nat + 256 * b as nat
  {
    assert LittleEndian([b]) == b by { assert [b][1..] == []; }
    assert [a, b][1..] == [b];
  }
}

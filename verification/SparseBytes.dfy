/** A sparse image in flash, byte by byte: what was encoded is what the sectors hold. */
module SparseBytes {
  import opened Bytes
  import opened Options
  import opened Flash
  import opened Files
  import opened Programming
  import opened Numerals
  import opened Skipblock
  import opened Ops
  import opened SparseFormat
  import opened SparseLoad
  import opened SparseEncoding
  import opened SparseTheorems

  function Size(l: Layout, s: Segment): nat
    requires 0 < l.blkSz
  {
    Blocks(l, s) * l.blkSz
  }

  function SizeOf(l: Layout, segments: seq<Segment>): nat
    requires 0 < l.blkSz
  {
    if |segments| == 0 then 0 else SizeOf(l, segments[..|segments| - 1]) + Size(l, segments[|segments| - 1])
  }

  predicate AllFit(l: Layout, segments: seq<Segment>) {
    0 < l.blkSz && forall i :: 0 <= i < |segments| ==> SegmentFits(l, segments[i])
  }

  /**
   * Byte `j` of the expanded image: raw data as it is, the four octets of a fill over and over, and nothing
   * where the image does not care.
   */
  function ImageByte(l: Layout, segments: seq<Segment>, j: nat): Option<byte>
    requires AllFit(l, segments)
  {
    if |segments| == 0 then None
    else
      var init, s := segments[..|segments| - 1], segments[|segments| - 1];
      var base := SizeOf(l, init);
      if j < base then ImageByte(l, init, j)
      else if j >= base + Size(l, s) then None
      else
        match s
        case RawSegment(data) => Some(data[j - base])
        case FillSegment(pattern, _) => Some(pattern[(j - base) % 4])
        case DontCareSegment(_) => None
  }

  /** Flash with the bytes of the image in place and every other sector as before. */
  ghost predicate HoldsBytes(before: Flash, after: Flash, p: int, start: nat, l: Layout, segments: seq<Segment>,
                             ss: nat)
    requires AllFit(l, segments)
  {
    forall a :: SectorHolds(before, after, p, start, l, segments, ss, a)
  }

  predicate SectorHolds(before: Flash, after: Flash, p: int, start: nat, l: Layout, segments: seq<Segment>, ss: nat,
                        a: Addr)
    requires AllFit(l, segments)
  {
    if a.partition == p && start <= a.sector && ImageByte(l, segments, (a.sector - start) * ss).Some?
    then a in after && |after[a]| == ss
         && forall i :: 0 <= i < ss ==> ImageByte(l, segments, (a.sector - start) * ss + i) == Some(after[a][i])
    else (a in after <==> a in before) && (a in after ==> after[a] == before[a])
  }

  // ----- The chunks of an image, byte by byte

  /** Chunks as the parser finds them, of whole sectors. */
  ghost predicate Match(content: bytes, l: Layout, segments: seq<Segment>, chunks: seq<Chunk>, ss: nat)
    requires 0 < ss
  {
    && AllFit(l, segments) && |chunks| == |segments|
    && forall i :: 0 <= i < |segments| ==> Finds(content, l, segments[i], chunks[i]) && chunks[i].size % ss == 0
  }

  lemma {:induction false} SizesMatch(content: bytes, l: Layout, segments: seq<Segment>, chunks: seq<Chunk>, ss: nat)
    requires 0 < ss && Match(content, l, segments, chunks, ss)
    ensures SpannedSectors(chunks, ss) * ss == SizeOf(l, segments)
  {
    hide Finds, SegmentFits, Size;
    var n := |segments| - 1;
    if |segments| > 0 {
      SizesMatch(content, l, segments[..n], chunks[..n], ss);
      ChunkSize(content, l, segments[n], chunks[n], ss);
      Distribute(SpannedSectors(chunks[..n], ss), chunks[n].size / ss, ss);
    }
  }

  lemma ChunkSize(content: bytes, l: Layout, s: Segment, c: Chunk, ss: nat)
    requires 0 < ss && 0 < l.blkSz && SegmentFits(l, s) && Finds(content, l, s, c) && c.size % ss == 0
    ensures c.size == Size(l, s) == c.size / ss * ss
  {
    BlocksAre(l, s);
  }

  /** Byte `i` of sector `k` is on the same side of a sector boundary as the sector. */
  lemma SameSide(k: nat, i: nat, n: nat, ss: nat)
    requires i < ss
    ensures k < n <==> k * ss + i < n * ss
  {
    if k < n { Distribute(k, n - k, ss); AtLeast(n - k, ss); } else { Distribute(n, k - n, ss); }
  }

  function ByteOf(sector: Option<bytes>, i: nat): Option<byte>
    requires sector.Some? ==> i < |sector.value|
  {
    if sector.Some? then Some(sector.value[i]) else None
  }

  lemma {:induction false} SectorBytes(content: bytes, l: Layout, segments: seq<Segment>, chunks: seq<Chunk>, ss: nat,
                                       k: nat, i: nat)
    requires 0 < ss && Match(content, l, segments, chunks, ss) && i < ss
    ensures 0 <= k * ss && ImageByte(l, segments, k * ss + i) == ByteOf(ImageSector(content, chunks, ss, k), i)
  {
    hide Finds, SegmentFits, Size, Padded, FillFrom;
    Distribute(k, 0, ss);
    var n := |segments| - 1;
    if |segments| > 0 {
      var base, m := SpannedSectors(chunks[..n], ss), chunks[n].size / ss;
      SizesMatch(content, l, segments[..n], chunks[..n], ss);
      ChunkSize(content, l, segments[n], chunks[n], ss);
      Distribute(base, m, ss);
      SameSide(k, i, base, ss);
      SameSide(k, i, base + m, ss);
      if k < base {
        SectorBytes(content, l, segments[..n], chunks[..n], ss, k, i);
      } else if k < base + m {
        Distribute(base, k - base, ss);
        LastSector(content, l, segments, chunks, ss, k, i);
      }
    }
  }

  lemma LastSector(content: bytes, l: Layout, segments: seq<Segment>, chunks: seq<Chunk>, ss: nat, k: nat, i: nat)
    requires 0 < ss && Match(content, l, segments, chunks, ss) && i < ss && |segments| > 0
    requires var base := SpannedSectors(chunks[..|chunks| - 1], ss);
             base <= k < base + chunks[|chunks| - 1].size / ss
    ensures 0 <= k * ss && ImageByte(l, segments, k * ss + i) == ByteOf(ImageSector(content, chunks, ss, k), i)
  {
    hide Finds, SegmentFits, Size, Padded, FillFrom;
    var n := |segments| - 1;
    var base, off := SpannedSectors(chunks[..n], ss), (k - SpannedSectors(chunks[..n], ss)) * ss;
    SizesMatch(content, l, segments[..n], chunks[..n], ss);
    ChunkSize(content, l, segments[n], chunks[n], ss);
    Distribute(base, k - base, ss);
    SameSide(k - base, i, chunks[n].size / ss, ss);
    InChunk(k - base, chunks[n].size / ss, ss);
    ChunkByte(content, l, segments[n], chunks[n], ss, off, i);
  }

  lemma InChunk(k: nat, n: nat, ss: nat)
    requires k < n
    ensures k * ss + ss <= n * ss
  {
    Distribute(k + 1, n - k - 1, ss);
    Distribute(k, 1, ss);
  }

  lemma ChunkByte(content: bytes, l: Layout, s: Segment, c: Chunk, ss: nat, off: nat, i: nat)
    requires 0 < l.blkSz && SegmentFits(l, s) && Finds(content, l, s, c) && i < ss && off + ss <= c.size
    ensures c.DontCareChunk? <==> s.DontCareSegment?
    ensures s.RawSegment? ==> c.RawChunk? && Padded(content, c.offset + off, ss)[i] == s.data[off + i]
    ensures s.FillSegment? ==> c.FillChunk? && FillFrom(c.value, off, ss)[i] == s.pattern[(off + i) % 4]
  {
    hide Blocks, LittleEndian, FillByte;
    if s.RawSegment? {
      PaddedAt(content, c.offset + off, ss, i);
      assert content[c.offset..c.offset + c.size][off + i] == content[c.offset + off + i];
    } else if s.FillSegment? {
      FillIsOctet(s.pattern, off + i);
    }
  }

  // ----- Images as they were encoded

  /** However the content was encoded as an image, its bytes are in flash. */
  ghost predicate HoldsWhatItEncodes(before: Flash, after: Flash, p: int, start: nat, content: bytes, ss: nat) {
    forall l, segments | WellFormed(l, segments) && content == EncodeImage(l, segments) ::
      HoldsBytes(before, after, p, start, l, segments, ss)
  }

  lemma {:induction false} AcceptedSizes(p: ProgramOp, chunks: seq<Chunk>)
    requires 0 < p.sectorSize && p.startSector.Some? && SparseOps(p, chunks).Some?
    ensures forall i :: 0 <= i < |chunks| ==> chunks[i].size % p.sectorSize == 0
  {
    hide ChunkOp, Advance;
    if |chunks| > 0 { AcceptedSizes(p, chunks[..|chunks| - 1]); }
  }

  /** Chunks are accepted exactly when each that is not empty is a whole number of sectors, below 2^32 - 1. */
  lemma {:induction false} ChunksAcceptedIff(p: ProgramOp, chunks: seq<Chunk>)
    requires 0 < p.sectorSize && p.startSector.Some?
    ensures SparseOps(p, chunks).Some?
        <==> forall i :: 0 <= i < |chunks| && chunks[i].size > 0 ==>
                           chunks[i].size % p.sectorSize == 0 && chunks[i].size / p.sectorSize < 0xFFFF_FFFF
  {
    hide ChunkOp, Advance;
    if |chunks| > 0 { ChunksAcceptedIff(p, chunks[..|chunks| - 1]); }
  }

  lemma BytesHeld(before: Flash, after: Flash, p: int, start: nat, content: bytes, l: Layout, segments: seq<Segment>,
                  chunks: seq<Chunk>, ss: nat)
    requires 0 < ss && Match(content, l, segments, chunks, ss)
    requires HoldsImage(before, after, p, start, content, chunks, ss)
    ensures HoldsBytes(before, after, p, start, l, segments, ss)
  {
    hide ImageSector, ImageByte, SegmentFits, Finds, HoldsSector, SectorHolds;
    forall a ensures SectorHolds(before, after, p, start, l, segments, ss, a) {
      assert HoldsSector(before, after, p, start, content, chunks, ss, a);
      BytesHeldAt(before, after, p, start, content, l, segments, chunks, ss, a);
    }
  }

  lemma BytesHeldAt(before: Flash, after: Flash, p: int, start: nat, content: bytes, l: Layout, segments: seq<Segment>,
                    chunks: seq<Chunk>, ss: nat, a: Addr)
    requires 0 < ss && Match(content, l, segments, chunks, ss)
    requires HoldsSector(before, after, p, start, content, chunks, ss, a)
    ensures SectorHolds(before, after, p, start, l, segments, ss, a)
  {
    hide ImageSector, ImageByte, SegmentFits, Finds;
    if a.partition == p && start <= a.sector {
      var k := a.sector - start;
      SectorBytes(content, l, segments, chunks, ss, k, 0);
      var sector := ImageSector(content, chunks, ss, k);
      forall i: nat | i < ss
        ensures ImageByte(l, segments, k * ss + i) == ByteOf(sector, i)
      {
        SectorBytes(content, l, segments, chunks, ss, k, i);
      }
      assert ImageByte(l, segments, k * ss).Some? <==> sector.Some?;
      if sector.Some? {
        assert after[a] == sector.value;
        forall i | 0 <= i < ss ensures ImageByte(l, segments, (a.sector - start) * ss + i) == Some(after[a][i]) {
          assert ImageByte(l, segments, k * ss + i) == ByteOf(sector, i);
        }
      }
    }
  }

  lemma EncodedImageHeld(before: Flash, after: Flash, p: ProgramOp, start: nat, content: bytes, chunks: seq<Chunk>)
    requires 0 < p.sectorSize && p.startSector.Some? && SparseOps(p, chunks).Some?
    requires FileChunks(content, Posix) == Some(chunks)
    requires HoldsImage(before, after, p.partition, start, content, chunks, p.sectorSize)
    ensures HoldsWhatItEncodes(before, after, p.partition, start, content, p.sectorSize)
  {
    hide HoldsImage, HoldsBytes, FileChunks, EncodeImage, SparseOps, SegmentFits, Finds;
    AcceptedSizes(p, chunks);
    forall l, segments | WellFormed(l, segments) && content == EncodeImage(l, segments)
      ensures HoldsBytes(before, after, p.partition, start, l, segments, p.sectorSize)
    {
      ImageParses(l, segments);
      BytesHeld(before, after, p.partition, start, content, l, segments, chunks, p.sectorSize);
    }
  }

  /**
   * `load_program_tag` and the operations it appends, run in order: the chunk operations,
   * then the parent, which has lost its filename and writes nothing.
   */
  method ProgramSparseImage(t: Target, files: map<bytes, bytes>, p: ProgramOp, maxPayload: nat) returns (r: LoadResult)
    requires 0 < p.sectorSize <= maxPayload && p.sparse
    requires p.filename.Some? && p.filename.value in files && !p.fromZip
    requires FileChunks(files[p.filename.value], Posix).Some? ==>
               FillsFit(FileChunks(files[p.filename.value], Posix).value, maxPayload)
    requires ReadsDecimals(t.resolve)
    modifies t
    ensures r == Loaded ==> p.startSector.Some? && FileChunks(files[p.filename.value], Posix).Some?
    ensures r == Loaded ==>
              var content := files[p.filename.value];
              var chunks := FileChunks(content, Posix).value;
              && SparseOps(p, chunks).Some?
              && (FillsInPhase(chunks, maxPayload, p.sectorSize) && Numeric(t.resolve, p, chunks) ==>
                    && HoldsImage(old(t.flash), t.flash, p.partition, Home(t.resolve, p), content, chunks, p.sectorSize)
                    && HoldsWhatItEncodes(old(t.flash), t.flash, p.partition, Home(t.resolve, p), content,
                                          p.sectorSize))
    ensures r != Loaded ==> t.flash == old(t.flash)
  {
    hide ProgramEffect, Expands, HoldsImage, SparseOps, FileChunks, ReadsDecimals, Strtoul, SpannedSectors, Numeric,
         Placed, FillsInPhase, InPhase, ProgramStream, FillsFit, Home, WriteSectors, HoldsWhatItEncodes;
    var content := files[p.filename.value];
    var file := new QdlFile(content, Posix, 4096);
    var ops, q;
    r, ops, q := ProgramLoadSparse(file, p);
    if r == Loaded {
      ghost var chunks := FileChunks(content, Posix).value;
      ghost var flash0, resolve := t.flash, t.resolve;
      OpsFit(p, chunks, maxPayload);
      OpsRun(flash0, resolve, files, p, content, chunks);
      ProgramAll(t, files, ops, maxPayload);
      SkipsParent(t.flash, resolve, files, q);
      var ok := FirehoseProgram(t, files, q.(filename := None), maxPayload);
      PlacedIff(resolve, p, chunks);
      if FillsInPhase(chunks, maxPayload, p.sectorSize) && Numeric(resolve, p, chunks) {
        SparseRun(flash0, resolve, files, p, content, chunks);
        ExpandedRun(flash0, resolve, files, p, content, chunks, ops);
        EncodedImageHeld(flash0, t.flash, p, Home(resolve, p), content, chunks);
      }
    }
  }
}

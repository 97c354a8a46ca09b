/** Expansion of a sparse image into one program operation per chunk with data. */
module SparseLoad {
  import opened Bytes
  import opened Options
  import opened Numerals
  import opened Files
  import opened Ops
  import opened SparseFormat

  const UINT_MAX := 0xFFFF_FFFF

  /** The operation that writes a chunk at the program's current start sector. */
  function ChunkOp(p: ProgramOp, c: Chunk): ProgramOp
    requires !c.DontCareChunk? && 0 < p.sectorSize
  {
    ProgramOp(p.partition, p.sectorSize, false, p.filename, p.startSector, c.size / p.sectorSize, p.pagesPerBlock,
              p.fileOffset, p.partLabel, p.sparse, p.lastSector, p.isNand,
              if c.RawChunk? then CHUNK_TYPE_RAW else CHUNK_TYPE_FILL,
              if c.FillChunk? then c.value else 0, if c.RawChunk? then c.offset else 0)
  }

  /** The program, its start sector moved past a chunk: strtoul, add modulo 2^32, print. */
  function Advance(p: ProgramOp, c: Chunk): ProgramOp
    requires p.startSector.Some? && 0 < p.sectorSize
  {
    p.(startSector := Some(Decimal((Strtoul(p.startSector.value, 0).0 + c.size / p.sectorSize) % 0x1_0000_0000)))
  }

  predicate ChunkAccepted(p: ProgramOp, c: Chunk)
    requires 0 < p.sectorSize
  {
    c.size % p.sectorSize == 0 && c.size / p.sectorSize < UINT_MAX
  }

  /** The operations for the chunks, and the program after them. */
  function SparseOps(p: ProgramOp, chunks: seq<Chunk>): (r: Option<(seq<ProgramOp>, ProgramOp)>)
    requires p.startSector.Some? && 0 < p.sectorSize
    ensures r.Some? ==> r.value.1 == p.(startSector := r.value.1.startSector) && r.value.1.startSector.Some?
  {
    if |chunks| == 0 then Some(([], p))
    else
      var c := chunks[|chunks| - 1];
      match SparseOps(p, chunks[..|chunks| - 1])
      case None => None
      case Some((ops, q)) =>
        if c.size == 0 then Some((ops, q))
        else if !ChunkAccepted(p, c) then None
        else Some((if c.DontCareChunk? then ops else ops + [ChunkOp(q, c)], Advance(q, c)))
  }

  datatype LoadResult = LoadFailed | NotSparse | Loaded

  /** The chunks of a file, when its header and all its chunks parse. */
  function FileChunks(content: bytes, kind: FileKind): Option<seq<Chunk>> {
    match ParseHeader(content, kind)
    case None => None
    case Some((h, pos)) =>
      match ParseChunks(content, kind, pos, h, h.totalChunks)
      case None => None
      case Some((chunks, _)) => Some(chunks)
  }

  /**
   * `program_load_sparse`: the operations to append and the program left behind. An image
   * without a sparse header that has exactly the partition's size is programmed as it is.
   */
  method ProgramLoadSparse(file: QdlFile, p: ProgramOp) returns (r: LoadResult, ops: seq<ProgramOp>, q: ProgramOp)
    requires file.burst >= HEADER_SIZE && (file.kind == Posix || file.pos == 0)
    modifies file
    ensures r == Loaded <==> && 0 < p.sectorSize && p.startSector.Some?
                             && FileChunks(file.content, file.kind).Some?
                                 && SparseOps(p, FileChunks(file.content, file.kind).value).Some?
    ensures r == Loaded ==> SparseOps(p, FileChunks(file.content, file.kind).value).value == (ops, q)
    ensures r == NotSparse <==> ParseHeader(file.content, file.kind).None? && file.kind == Posix
                                && p.sectorSize * p.numSectors == |file.content|
    ensures r == NotSparse ==> ops == [] && q == p.(sparse := false)
  {
    hide ParseChunk, Strtoul, Decimal, SparseOps, ParseChunks;
    ops, q := [], p;
    var header := SparseHeaderParse(file);
    if header.None? {
      if file.kind == Posix && p.sectorSize * p.numSectors == |file.content| {
        q := p.(sparse := false);
        return NotSparse, ops, q;
      }
      return LoadFailed, ops, q;
    }
    if p.sectorSize == 0 || p.startSector.None? {
      return LoadFailed, ops, q;
    }
    var ok;
    ok, ops, q := LoadChunks(file, header.value, p);
    r := if ok then Loaded else LoadFailed;
  }

  /** The loop over the chunks. */
  method LoadChunks(file: QdlFile, h: SparseHeader, p: ProgramOp) returns (ok: bool, ops: seq<ProgramOp>, q: ProgramOp)
    requires file.burst >= HEADER_SIZE && 0 < p.sectorSize && p.startSector.Some?
    modifies file
    ensures ok <==> && ParseChunks(file.content, file.kind, old(file.pos), h, h.totalChunks).Some?
                    && SparseOps(p, ParseChunks(file.content, file.kind, old(file.pos), h, h.totalChunks).value.0).Some?
    ensures ok ==>
              SparseOps(p, ParseChunks(file.content, file.kind, old(file.pos), h, h.totalChunks).value.0).value
                  == (ops, q)
  {
    hide ParseChunk, Strtoul, Decimal;
    ops, q := [], p;
    ghost var start := file.pos;
    ghost var chunks: seq<Chunk> := [];
    for i := 0 to h.totalChunks
      invariant |chunks| == i && ParseChunks(file.content, file.kind, start, h, i) == Some((chunks, file.pos))
      invariant SparseOps(p, chunks) == Some((ops, q))
    {
      var chunk := SparseChunkHeaderParse(file, h);
      if chunk.None? {
        ParseFails(file.content, file.kind, start, h, i, h.totalChunks);
        return false, ops, q;
      }
      var c := chunk.value;
      assert (chunks + [c])[..i] == chunks;
      if c.size != 0 {
        if c.size % p.sectorSize != 0 || c.size / p.sectorSize >= UINT_MAX {
          OpsFail(file.content, file.kind, start, h, i + 1, h.totalChunks, p);
          return false, ops, q;
        }
        if !c.DontCareChunk? {
          ops := ops + [ChunkOp(q, c)];
        }
        q := Advance(q, c);
      }
      chunks := chunks + [c];
    }
    return true, ops, q;
  }

  lemma {:induction false} ParseFails(content: bytes, kind: FileKind, pos: nat, h: SparseHeader, i: nat, n: nat)
    requires i < n && ParseChunks(content, kind, pos, h, i + 1).None?
    ensures ParseChunks(content, kind, pos, h, n).None?
  {
    hide ParseChunk;
    if i + 1 < n { ParseFails(content, kind, pos, h, i, n - 1); }
  }

  lemma {:induction false} OpsFail(content: bytes, kind: FileKind, pos: nat, h: SparseHeader, i: nat, n: nat,
                                   p: ProgramOp)
    requires p.startSector.Some? && 0 < p.sectorSize && i <= n
    requires ParseChunks(content, kind, pos, h, i).Some?
             && SparseOps(p, ParseChunks(content, kind, pos, h, i).value.0).None?
    ensures ParseChunks(content, kind, pos, h, n).Some? ==>
              SparseOps(p, ParseChunks(content, kind, pos, h, n).value.0).None?
  {
    hide ParseChunk, SparseOps;
    if i < n {
      OpsFail(content, kind, pos, h, i, n - 1, p);
      if ParseChunks(content, kind, pos, h, n).Some? {
        var chunks := ParseChunks(content, kind, pos, h, n).value.0;
        assert chunks[..n - 1] == ParseChunks(content, kind, pos, h, n - 1).value.0;
        PrefixFails(p, chunks);
      }
    }
  }

  lemma PrefixFails(p: ProgramOp, chunks: seq<Chunk>)
    requires p.startSector.Some? && 0 < p.sectorSize && |chunks| > 0
    requires SparseOps(p, chunks[..|chunks| - 1]).None?
    ensures SparseOps(p, chunks).None?
  {
  }
}

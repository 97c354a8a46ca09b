/** The Android sparse image format, as the parser accepts it. */
module SparseFormat {
  import opened Bytes
  import opened Options
  import opened Files
  import opened Ops

  const HEADER_SIZE := 28
  const CHUNK_HEADER_SIZE := 12
  const HEADER_MAGIC := 0xed26ff3a

  datatype SparseHeader = SparseHeader(magic: nat, major: nat, minor: nat, fileHdrSz: nat, chunkHdrSz: nat, blkSz: nat,
                                       totalBlks: nat, totalChunks: nat, checksum: nat)

  /** A chunk of the image; sizes in bytes of the expanded image. */
  datatype Chunk = RawChunk(offset: nat, size: nat) | FillChunk(value: nat, size: nat) | DontCareChunk(size: nat)

  function Word(b: bytes, at: nat): nat
    requires at + 4 <= |b|
  {
    LittleEndian(b[at..at + 4])
  }

  function HalfWord(b: bytes, at: nat): nat
    requires at + 2 <= |b|
  {
    LittleEndian(b[at..at + 2])
  }

  function DecodeHeader(b: bytes): SparseHeader
    requires |b| == HEADER_SIZE
  {
    SparseHeader(Word(b, 0), HalfWord(b, 4), HalfWord(b, 6), HalfWord(b, 8), HalfWord(b, 10), Word(b, 12),
                 Word(b, 16), Word(b, 20), Word(b, 24))
  }

  /** The header at the start of a file, and where the chunks start; in a zip member an extension is not skipped. */
  function ParseHeader(content: bytes, kind: FileKind): Option<(SparseHeader, nat)> {
    var b := Available(content, 0, HEADER_SIZE);
    if |b| != HEADER_SIZE then None
    else
      var h := DecodeHeader(b);
      if h.magic != HEADER_MAGIC || h.major != 1 || h.minor != 0 then None
      else Some((h, if kind == Posix && h.fileHdrSz > HEADER_SIZE then h.fileHdrSz else HEADER_SIZE))
  }

  /**
   * The chunk whose header is at `pos`, and the position after it. What takes a seek, an
   * extended chunk header or raw data, fails in a zip member.
   */
  function ParseChunk(content: bytes, kind: FileKind, pos: nat, h: SparseHeader): Option<(Chunk, nat)> {
    var b := Available(content, pos, CHUNK_HEADER_SIZE);
    if |b| != CHUNK_HEADER_SIZE || (kind == ZipMember && h.chunkHdrSz > CHUNK_HEADER_SIZE) then None
    else
      var ctype, total := HalfWord(b, 0), Word(b, 8);
      var size := Word(b, 4) * h.blkSz;
      var body := pos + (if h.chunkHdrSz > CHUNK_HEADER_SIZE then h.chunkHdrSz else CHUNK_HEADER_SIZE);
      if ctype == CHUNK_TYPE_RAW then
        if total != h.chunkHdrSz + size || kind == ZipMember then None else Some((RawChunk(body, size), body + size))
      else if ctype == CHUNK_TYPE_DONT_CARE then
        if total != h.chunkHdrSz then None else Some((DontCareChunk(size), body))
      else if ctype == CHUNK_TYPE_FILL then
        var v := Available(content, body, 4);
        if total != h.chunkHdrSz + 4 || |v| != 4 then None
        else Some((FillChunk(LittleEndian(v), size), body + 4))
      else None
  }

  /** The first `n` chunks, and the position after them. */
  function ParseChunks(content: bytes, kind: FileKind, pos: nat, h: SparseHeader,
                       n: nat): (r: Option<(seq<Chunk>, nat)>)
    ensures r.Some? ==> |r.value.0| == n
  {
    if n == 0 then Some(([], pos))
    else
      match ParseChunks(content, kind, pos, h, n - 1)
      case None => None
      case Some((chunks, next)) =>
        match ParseChunk(content, kind, next, h)
        case None => None
        case Some((chunk, after)) => Some((chunks + [chunk], after))
  }

  /** `sparse_header_parse` */
  method SparseHeaderParse(file: QdlFile) returns (header: Option<SparseHeader>)
    requires file.burst >= HEADER_SIZE && (file.kind == Posix || file.pos == 0)
    modifies file
    ensures header.Some? <==> ParseHeader(file.content, file.kind).Some?
    ensures header.Some? ==> ParseHeader(file.content, file.kind).value == (header.value, file.pos)
  {
    var _ := file.Seek(0);
    var b := file.Read(HEADER_SIZE);
    if |b| != HEADER_SIZE {
      return None;
    }
    var h := DecodeHeader(b);
    if h.magic != HEADER_MAGIC || h.major != 1 || h.minor != 0 {
      return None;
    }
    if h.fileHdrSz > HEADER_SIZE {
      var _ := file.Skip(h.fileHdrSz - HEADER_SIZE);
    }
    return Some(h);
  }

  /** `sparse_chunk_header_parse` */
  method SparseChunkHeaderParse(file: QdlFile, h: SparseHeader) returns (chunk: Option<Chunk>)
    requires file.burst >= HEADER_SIZE
    modifies file
    ensures chunk.Some? <==> ParseChunk(file.content, file.kind, old(file.pos), h).Some?
    ensures chunk.Some? ==> ParseChunk(file.content, file.kind, old(file.pos), h).value == (chunk.value, file.pos)
  {
    hide LittleEndian;
    var b := file.Read(CHUNK_HEADER_SIZE);
    if |b| != CHUNK_HEADER_SIZE {
      return None;
    }
    if h.chunkHdrSz > CHUNK_HEADER_SIZE {
      var moved := file.Skip(h.chunkHdrSz - CHUNK_HEADER_SIZE);
      if !moved {
        return None;
      }
    }
    var kind := HalfWord(b, 0);
    var size := Word(b, 4) * h.blkSz;
    if kind == CHUNK_TYPE_RAW {
      if Word(b, 8) != h.chunkHdrSz + size {
        return None;
      }
      var told := file.Skip(0);
      var offset := file.pos;
      if !told {
        return None;
      }
      var _ := file.Skip(size);
      return Some(RawChunk(offset, size));
    } else if kind == CHUNK_TYPE_DONT_CARE {
      if Word(b, 8) != h.chunkHdrSz {
        return None;
      }
      return Some(DontCareChunk(size));
    } else if kind == CHUNK_TYPE_FILL {
      if Word(b, 8) != h.chunkHdrSz + 4 {
        return None;
      }
      var v := file.Read(4);
      if |v| != 4 {
        return None;
      }
      return Some(FillChunk(LittleEndian(v), size));
    }
    return None;
  }
}

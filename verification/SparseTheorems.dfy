/** Running the operations of an expanded sparse image leaves the expanded image in flash. */
module SparseTheorems {
  import opened Bytes
  import opened Options
  import opened Numerals
  import opened Flash
  import opened Files
  import opened Programming
  import opened Skipblock
  import opened Ops
  import opened SparseFormat
  import opened SparseLoad

  // ----- firehose_program

  /** How many sectors of an image get programmed: all of it, cut at the partition's size. */
  function ImageSectors(op: ProgramOp, size: nat): nat
    requires 0 < op.sectorSize
  {
    var n := (size + op.sectorSize - 1) / op.sectorSize % 0x1_0000_0000;
    if op.numSectors != 0 && n > op.numSectors then op.numSectors else n
  }

  /** Where reading starts: zip members cannot be sought, so the offset is lost. */
  function Rewound(op: ProgramOp, offset: nat): nat { if op.fromZip then 0 else offset }

  /** The data a program operation writes; none for a chunk type it does not know. */
  function ProgramData(op: ProgramOp, content: bytes): Option<bytes>
    requires 0 < op.sectorSize
  {
    var ss := op.sectorSize;
    if !op.sparse then Some(Padded(content, Rewound(op, op.fileOffset * ss), ImageSectors(op, |content|) * ss))
    else if op.chunkType == CHUNK_TYPE_RAW then Some(Padded(content, Rewound(op, op.sparseOffset), op.numSectors * ss))
    else if op.chunkType == CHUNK_TYPE_FILL then Some(FillPattern(op.fillValue, op.numSectors * ss))
    else None
  }

  /** printf's rendering of a missing string. */
  const NULL_TEXT: bytes := [40, 110, 117, 108, 108, 41]

  function StartText(op: ProgramOp): bytes {
    if op.startSector.Some? then op.startSector.value else NULL_TEXT
  }

  /** The effect of a program operation on flash; none when it fails. */
  function ProgramEffect(flash: Flash, resolve: bytes -> nat, files: map<bytes, bytes>, op: ProgramOp): Option<Flash>
    requires 0 < op.sectorSize
  {
    if op.filename.None? then Some(flash)
    else if op.filename.value !in files then None
    else match ProgramData(op, files[op.filename.value])
      case None => None
      case Some(data) => Some(WriteSectors(flash, op.partition, resolve(StartText(op)), op.sectorSize, data))
  }

  /** A fill pattern is repeated in a buffer that must hold it a whole number of times. */
  predicate FillFits(op: ProgramOp, maxPayload: nat) {
    op.filename.Some? && op.sparse && op.chunkType == CHUNK_TYPE_FILL ==> maxPayload % 4 == 0
  }

  /** A fill, if it is one, whose restarts with every frame make no difference. */
  predicate InPhase(op: ProgramOp, maxPayload: nat)
    requires 0 < op.sectorSize <= maxPayload
  {
    op.sparse && op.chunkType == CHUNK_TYPE_FILL ==> KeepsPhase(maxPayload, op.sectorSize, op.numSectors)
  }

  /** What is streamed for a program operation. */
  function ProgramStream(op: ProgramOp, content: bytes, maxPayload: nat): Option<bytes>
    requires 0 < op.sectorSize <= maxPayload
  {
    if op.sparse && op.chunkType == CHUNK_TYPE_FILL
    then Some(Streamed(Fill(op.fillValue), maxPayload, op.sectorSize, op.numSectors))
    else ProgramData(op, content)
  }

  lemma StreamIsData(op: ProgramOp, content: bytes, maxPayload: nat)
    requires 0 < op.sectorSize <= maxPayload && InPhase(op, maxPayload)
    ensures ProgramStream(op, content, maxPayload) == ProgramData(op, content)
  {
    hide Padded, FillPattern;
    if op.sparse && op.chunkType == CHUNK_TYPE_FILL {
      PhaseKept(op.fillValue, maxPayload, op.sectorSize, op.numSectors);
    }
  }

  /** `firehose_program` without skipblock; `files` is where the operation's image comes from. */
  method FirehoseProgram(t: Target, files: map<bytes, bytes>, op: ProgramOp, maxPayload: nat) returns (ok: bool)
    requires 0 < op.sectorSize <= maxPayload && FillFits(op, maxPayload)
    modifies t
    ensures ok <==> ProgramEffect(old(t.flash), t.resolve, files, op).Some?
    ensures ok && op.filename.Some? ==>
              t.flash == WriteSectors(old(t.flash), op.partition, t.resolve(StartText(op)), op.sectorSize,
                                      ProgramStream(op, files[op.filename.value], maxPayload).value)
    ensures ok && (op.filename.Some? ==> InPhase(op, maxPayload)) ==>
              t.flash == ProgramEffect(old(t.flash), t.resolve, files, op).value
  {
    hide WriteSectors, Padded, FillPattern, KeepsPhase, Framed, InPhase;
    if op.filename.None? {
      return true;
    }
    if op.filename.value !in files {
      return false;
    }
    var ss := op.sectorSize;
    var file := new QdlFile(files[op.filename.value], if op.fromZip then ZipMember else Posix, 4096);
    var num := op.numSectors;
    if !op.sparse {
      num := (|file.content| + ss - 1) / ss % 0x1_0000_0000;
      if op.numSectors != 0 && num > op.numSectors {
        num := op.numSectors;
      }
    }
    assert num == if op.sparse then op.numSectors else ImageSectors(op, |file.content|);
    hide ImageSectors;
    if InPhase(op, maxPayload) { StreamIsData(op, file.content, maxPayload); }
    t.Begin(op.partition, StartText(op), ss);
    if !op.sparse {
      var _ := file.Seek(op.fileOffset * ss);
      StreamOut(t, file, num, maxPayload, None, []);
    } else if op.chunkType == CHUNK_TYPE_RAW {
      var _ := file.Seek(op.sparseOffset);
      StreamOut(t, file, num, maxPayload, None, []);
    } else if op.chunkType == CHUNK_TYPE_FILL {
      StreamOut(t, file, num, maxPayload, Some(op.fillValue), FillPattern(op.fillValue, maxPayload));
    } else {
      return false;
    }
    return true;
  }

  /** The effect of program operations run one after the other. */
  function RunEffects(flash: Flash, resolve: bytes -> nat, files: map<bytes, bytes>, ops: seq<ProgramOp>): Option<Flash>
    requires forall i :: 0 <= i < |ops| ==> 0 < ops[i].sectorSize
  {
    if |ops| == 0 then Some(flash)
    else
      match RunEffects(flash, resolve, files, ops[..|ops| - 1])
      case None => None
      case Some(f) => ProgramEffect(f, resolve, files, ops[|ops| - 1])
  }

  // ----- The expanded image

  /** The number of sectors the chunks span. */
  function SpannedSectors(chunks: seq<Chunk>, ss: nat): nat
    requires 0 < ss
  {
    if |chunks| == 0 then 0
    else SpannedSectors(chunks[..|chunks| - 1], ss) + chunks[|chunks| - 1].size / ss
  }

  /** A fill pattern from byte `from` on. */
  function FillFrom(value: nat, from: nat, len: nat): (r: bytes)
    ensures |r| == len
  {
    FillPattern(value, from + len)[from..]
  }

  /** Sector `k` of the expanded image: its contents, or nothing where the image does not care. */
  function ImageSector(content: bytes, chunks: seq<Chunk>, ss: nat, k: nat): (r: Option<bytes>)
    requires 0 < ss
    ensures r.Some? ==> |r.value| == ss
  {
    if |chunks| == 0 then None
    else
      var before := chunks[..|chunks| - 1];
      var base, c := SpannedSectors(before, ss), chunks[|chunks| - 1];
      if k < base then ImageSector(content, before, ss, k)
      else if k < base + c.size / ss then
        match c
        case RawChunk(offset, _) => Some(Padded(content, offset + (k - base) * ss, ss))
        case FillChunk(value, _) => Some(FillFrom(value, (k - base) * ss, ss))
        case DontCareChunk(_) => None
      else None
  }

  /** Flash with the image's sectors in place and every other sector as before. */
  ghost predicate HoldsImage(before: Flash, after: Flash, p: int, start: nat, content: bytes, chunks: seq<Chunk>,
                             ss: nat)
    requires 0 < ss
  {
    forall a :: HoldsSector(before, after, p, start, content, chunks, ss, a)
  }

  predicate HoldsSector(before: Flash, after: Flash, p: int, start: nat, content: bytes, chunks: seq<Chunk>, ss: nat,
                        a: Addr)
    requires 0 < ss
  {
    if a.partition == p && start <= a.sector && ImageSector(content, chunks, ss, a.sector - start).Some?
    then a in after && after[a] == ImageSector(content, chunks, ss, a.sector - start).value
    else (a in after <==> a in before) && (a in after ==> after[a] == before[a])
  }

  /** The chunk's own data. */
  function ChunkBytes(content: bytes, c: Chunk): bytes
    requires !c.DontCareChunk?
  {
    if c.RawChunk? then Padded(content, c.offset, c.size) else FillPattern(c.value, c.size)
  }

  lemma ChunkSectorAt(content: bytes, c: Chunk, ss: nat, n: nat, k: nat)
    requires 0 < ss && !c.DontCareChunk? && c.size == n * ss && k < n
    ensures 0 <= k * ss <= k * ss + ss <= c.size
    ensures ChunkBytes(content, c)[k * ss..k * ss + ss]
         == if c.RawChunk? then Padded(content, c.offset + k * ss, ss) else FillFrom(c.value, k * ss, ss)
  {
    hide Padded, FillByte;
    assert (k + 1) * ss <= n * ss by { AtMost(k + 1, n, ss); }
    Distribute(k, 1, ss);
    if c.RawChunk? {
      PaddedSplits(content, c.offset, k * ss, c.size - k * ss);
      PaddedSplits(content, c.offset + k * ss, ss, c.size - k * ss - ss);
    }
  }

  lemma {:induction false} AtMost(k: nat, n: nat, ss: nat)
    requires k <= n
    ensures k * ss <= n * ss
  {
    if k < n {
      AtMost(k, n - 1, ss);
      Distribute(n - 1, 1, ss);
    }
  }

  /** A chunk without data leaves the image's sectors as they are. */
  lemma SkippedChunk(before: Flash, f: Flash, p: int, start: nat, content: bytes, chunks: seq<Chunk>, c: Chunk, ss: nat)
    requires 0 < ss && HoldsImage(before, f, p, start, content, chunks, ss)
    requires c.DontCareChunk? || c.size == 0
    ensures HoldsImage(before, f, p, start, content, chunks + [c], ss)
  {
    hide Padded, FillPattern, SpannedSectors;
    assert (chunks + [c])[..|chunks|] == chunks;
    forall a
      ensures HoldsSector(before, f, p, start, content, chunks + [c], ss, a)
    {
      assert HoldsSector(before, f, p, start, content, chunks, ss, a);
      BeyondImage(content, chunks, ss, if a.sector >= start then a.sector - start else 0);
    }
  }

  lemma {:induction false} BeyondImage(content: bytes, chunks: seq<Chunk>, ss: nat, k: nat)
    requires 0 < ss
    ensures SpannedSectors(chunks, ss) <= k ==> ImageSector(content, chunks, ss, k).None?
  {
    hide Padded, FillPattern;
    if |chunks| > 0 && SpannedSectors(chunks, ss) <= k {
      BeyondImage(content, chunks[..|chunks| - 1], ss, k);
    }
  }

  /** A chunk with data puts its sectors in place behind those of the chunks before it. */
  lemma WrittenChunk(before: Flash, f: Flash, p: int, start: nat, content: bytes, chunks: seq<Chunk>, c: Chunk, ss: nat,
                     n: nat)
    requires 0 < ss && HoldsImage(before, f, p, start, content, chunks, ss)
    requires !c.DontCareChunk? && c.size == n * ss && c.size / ss == n
    ensures |ChunkBytes(content, c)| == n * ss
    ensures HoldsImage(before, WriteSectors(f, p, start + SpannedSectors(chunks, ss), ss, ChunkBytes(content, c)),
                       p, start, content, chunks + [c], ss)
  {
    hide WriteSectors, SpannedSectors, ChunkBytes;
    var base := SpannedSectors(chunks, ss);
    assert |ChunkBytes(content, c)| == n * ss by { ChunkLength(content, c); }
    var after := WriteSectors(f, p, start + base, ss, ChunkBytes(content, c));
    forall a
      ensures HoldsSector(before, after, p, start, content, chunks + [c], ss, a)
    {
      assert HoldsSector(before, f, p, start, content, chunks, ss, a);
      WrittenChunkAt(before, f, p, start, content, chunks, c, ss, n, a);
    }
  }

  lemma ChunkLength(content: bytes, c: Chunk)
    requires !c.DontCareChunk?
    ensures |ChunkBytes(content, c)| == c.size
  {
  }

  lemma WrittenChunkAt(before: Flash, f: Flash, p: int, start: nat, content: bytes, chunks: seq<Chunk>, c: Chunk,
                       ss: nat, n: nat, a: Addr)
    requires 0 < ss && HoldsSector(before, f, p, start, content, chunks, ss, a)
    requires !c.DontCareChunk? && c.size == n * ss && c.size / ss == n
    requires |ChunkBytes(content, c)| == n * ss
    ensures HoldsSector(before, WriteSectors(f, p, start + SpannedSectors(chunks, ss), ss, ChunkBytes(content, c)),
                        p, start, content, chunks + [c], ss, a)
  {
    hide WriteSectors, Padded, FillPattern, SpannedSectors, ChunkBytes;
    assert (chunks + [c])[..|chunks|] == chunks;
    var base, data := SpannedSectors(chunks, ss), ChunkBytes(content, c);
    if a.partition == p && start + base <= a.sector < start + base + n {
      var k := a.sector - (start + base);
      WriteSectorsInside(f, p, start + base, ss, data, n, k);
      ChunkSectorAt(content, c, ss, n, k);
    } else {
      WriteSectorsOutside(f, p, start + base, ss, data, n, a);
      if a.sector >= start { BeyondImage(content, chunks, ss, a.sector - start); }
    }
  }

  // ----- The operations, run in order

  /** Whether a chunk becomes an operation. */
  predicate Written(c: Chunk) { c.size > 0 && !c.DontCareChunk? }

  /** The start sector as the programmer reads it. */
  function Home(resolve: bytes -> nat, p: ProgramOp): nat
    requires p.startSector.Some?
  {
    resolve(p.startSector.value)
  }

  /**
   * Where the chunk behind `chunks` goes: the start sector itself, or the number strtoul reads,
   * moved on modulo 2^32.
   */
  function NextStart(resolve: bytes -> nat, p: ProgramOp, chunks: seq<Chunk>): nat
    requires 0 < p.sectorSize && p.startSector.Some?
  {
    var s := SpannedSectors(chunks, p.sectorSize);
    if s == 0 then Home(resolve, p) else (Strtoul(p.startSector.value, 0).0 + s) % 0x1_0000_0000
  }

  /** Every written chunk goes where the image has it. */
  predicate Placed(resolve: bytes -> nat, p: ProgramOp, chunks: seq<Chunk>)
    requires 0 < p.sectorSize && p.startSector.Some?
  {
    |chunks| == 0
    || (Placed(resolve, p, chunks[..|chunks| - 1])
        && (Written(chunks[|chunks| - 1]) ==>
              NextStart(resolve, p, chunks[..|chunks| - 1])
              == Home(resolve, p) + SpannedSectors(chunks[..|chunks| - 1], p.sectorSize)))
  }

  /** How far into the image its last written chunk is. */
  function LastWritten(chunks: seq<Chunk>, ss: nat): (r: nat)
    requires 0 < ss
    ensures r <= SpannedSectors(chunks, ss)
  {
    if |chunks| == 0 then 0
    else
      var init := chunks[..|chunks| - 1];
      if Written(chunks[|chunks| - 1]) then SpannedSectors(init, ss) else LastWritten(init, ss)
  }

  /**
   * Only the start is written, or the start sector is the number that strtoul reads, and the last
   * chunk's fits 32 bits.
   */
  predicate Numeric(resolve: bytes -> nat, p: ProgramOp, chunks: seq<Chunk>)
    requires 0 < p.sectorSize && p.startSector.Some?
  {
    var last := LastWritten(chunks, p.sectorSize);
    last == 0
    || (Home(resolve, p) == Strtoul(p.startSector.value, 0).0 % 0x1_0000_0000
        && Home(resolve, p) + last < 0x1_0000_0000)
  }

  lemma {:induction false} PlacedIff(resolve: bytes -> nat, p: ProgramOp, chunks: seq<Chunk>)
    requires 0 < p.sectorSize && p.startSector.Some?
    ensures Placed(resolve, p, chunks) <==> Numeric(resolve, p, chunks)
  {
    hide Strtoul, SpannedSectors, Home;
    if |chunks| > 0 {
      var init := chunks[..|chunks| - 1];
      PlacedIff(resolve, p, init);
      if Written(chunks[|chunks| - 1]) {
        ShiftIff(Home(resolve, p), Strtoul(p.startSector.value, 0).0, SpannedSectors(init, p.sectorSize));
      }
    }
  }

  lemma ShiftIff(home: nat, base: nat, s: nat)
    ensures (base + s) % 0x1_0000_0000 == home + s <==> home == base % 0x1_0000_0000 && home + s < 0x1_0000_0000
  {
  }

  lemma DecimalStarts(resolve: bytes -> nat, n: nat)
    requires n < 0x1_0000_0000 && ReadsDecimals(resolve)
    ensures resolve(Decimal(n)) == n && Strtoul(Decimal(n), 0).0 == n
  {
    hide Strtoul, Decimal;
    StrtoulOfDecimal(n, [], 0);
    assert Decimal(n) + [] == Decimal(n);
  }

  /** Where the program stands behind `chunks`. */
  ghost predicate StandsAt(resolve: bytes -> nat, p: ProgramOp, chunks: seq<Chunk>, q: ProgramOp)
    requires 0 < p.sectorSize && p.startSector.Some?
  {
    var s := SpannedSectors(chunks, p.sectorSize);
    && q == p.(startSector := q.startSector) && q.startSector.Some?
    && (s == 0 ==> q == p)
    && Strtoul(q.startSector.value, 0).0 % 0x1_0000_0000 == (Strtoul(p.startSector.value, 0).0 + s) % 0x1_0000_0000
    && resolve(q.startSector.value) == NextStart(resolve, p, chunks)
  }

  lemma {:induction false} OpsStand(resolve: bytes -> nat, p: ProgramOp, chunks: seq<Chunk>)
    requires 0 < p.sectorSize && p.startSector.Some? && ReadsDecimals(resolve) && SparseOps(p, chunks).Some?
    ensures StandsAt(resolve, p, chunks, SparseOps(p, chunks).value.1)
  {
    hide Strtoul, Decimal, ReadsDecimals, StandsAt;
    SparseOpsStep(p, chunks);
    if |chunks| == 0 {
      NothingMoved(resolve, p);
    } else {
      var init, c := chunks[..|chunks| - 1], chunks[|chunks| - 1];
      assert init + [c] == chunks;
      OpsStand(resolve, p, init);
      var q := SparseOps(p, init).value.1;
      if c.size == 0 { StandsStill(resolve, p, init, c, q); } else { MovesOn(resolve, p, init, c, q); }
    }
  }

  lemma NothingMoved(resolve: bytes -> nat, p: ProgramOp)
    requires 0 < p.sectorSize && p.startSector.Some?
    ensures StandsAt(resolve, p, [], p)
  {
  }

  lemma StandsStill(resolve: bytes -> nat, p: ProgramOp, chunks: seq<Chunk>, c: Chunk, q: ProgramOp)
    requires 0 < p.sectorSize && p.startSector.Some? && StandsAt(resolve, p, chunks, q) && c.size == 0
    ensures StandsAt(resolve, p, chunks + [c], q)
  {
    hide Strtoul;
    Spans(chunks, c, p.sectorSize);
    NothingSpanned(p.sectorSize);
  }

  lemma MovesOn(resolve: bytes -> nat, p: ProgramOp, chunks: seq<Chunk>, c: Chunk, q: ProgramOp)
    requires 0 < p.sectorSize && p.startSector.Some? && StandsAt(resolve, p, chunks, q) && ReadsDecimals(resolve)
    requires c.size > 0 && ChunkAccepted(p, c)
    ensures StandsAt(resolve, p, chunks + [c], Advance(q, c))
  {
    hide Strtoul, Decimal, ReadsDecimals, SpannedSectors, ChunkAccepted, NextStart, Advance;
    var s, base, n := SpannedSectors(chunks, p.sectorSize), Strtoul(p.startSector.value, 0).0, c.size / p.sectorSize;
    AcceptedSize(p, c);
    Spans(chunks, c, p.sectorSize);
    var next := NextNumber(Strtoul(q.startSector.value, 0).0, base, s, n);
    DecimalStarts(resolve, next);
    LaterStart(resolve, p, chunks + [c]);
    AdvanceIs(q, c, next);
  }

  lemma NextNumber(was: nat, base: nat, s: nat, n: nat) returns (next: nat)
    requires was % 0x1_0000_0000 == (base + s) % 0x1_0000_0000
    ensures next == (was + n) % 0x1_0000_0000 == (base + (s + n)) % 0x1_0000_0000
    ensures next < 0x1_0000_0000 && next % 0x1_0000_0000 == next
  {
    next := (was + n) % 0x1_0000_0000;
    AddsUp(was, base + s, n);
  }

  lemma AdvanceIs(q: ProgramOp, c: Chunk, next: nat)
    requires q.startSector.Some? && 0 < q.sectorSize
    requires next == (Strtoul(q.startSector.value, 0).0 + c.size / q.sectorSize) % 0x1_0000_0000
    ensures Advance(q, c) == q.(startSector := Some(Decimal(next)))
  {
    hide Strtoul, Decimal;
  }

  lemma LaterStart(resolve: bytes -> nat, p: ProgramOp, chunks: seq<Chunk>)
    requires 0 < p.sectorSize && p.startSector.Some? && SpannedSectors(chunks, p.sectorSize) > 0
    ensures NextStart(resolve, p, chunks)
         == (Strtoul(p.startSector.value, 0).0 + SpannedSectors(chunks, p.sectorSize)) % 0x1_0000_0000
  {
    hide Strtoul;
  }

  lemma AddsUp(a: nat, b: nat, n: nat)
    requires a % 0x1_0000_0000 == b % 0x1_0000_0000
    ensures (a + n) % 0x1_0000_0000 == (b + n) % 0x1_0000_0000
  {
  }

  /** The operations of a sparse image, in order, never overlap: each starts at or after the end of those before it. */
  ghost predicate Ordered(resolve: bytes -> nat, ops: seq<ProgramOp>, from: nat, to: nat) {
    && (forall i :: 0 <= i < |ops| ==>
          from <= resolve(StartText(ops[i])) && resolve(StartText(ops[i])) + ops[i].numSectors <= to)
    && (forall i, j :: 0 <= i < j < |ops| ==>
          resolve(StartText(ops[i])) + ops[i].numSectors <= resolve(StartText(ops[j])))
  }

  /** What is known about a chunk list whose operations were built. */
  ghost predicate Expands(flash: Flash, resolve: bytes -> nat, files: map<bytes, bytes>, p: ProgramOp, content: bytes,
                          chunks: seq<Chunk>, ops: seq<ProgramOp>)
    requires 0 < p.sectorSize && p.startSector.Some?
  {
    && (forall i :: 0 <= i < |ops| ==> ops[i].sectorSize == p.sectorSize)
    && Ordered(resolve, ops, Home(resolve, p), Home(resolve, p) + SpannedSectors(chunks, p.sectorSize))
    && RunEffects(flash, resolve, files, ops).Some?
    && HoldsImage(flash, RunEffects(flash, resolve, files, ops).value, p.partition, Home(resolve, p), content, chunks,
                  p.sectorSize)
  }

  /** The operation's image is the sparse file. */
  predicate HasImage(files: map<bytes, bytes>, p: ProgramOp, content: bytes) {
    && p.sparse && p.filename.Some? && p.filename.value in files && files[p.filename.value] == content
    && 0 < p.sectorSize && p.startSector.Some?
  }

  /**
   * Running the operations of a sparse image whose chunks are placed right puts exactly the
   * expanded image into flash.
   */
  lemma {:induction false} SparseRun(flash: Flash, resolve: bytes -> nat, files: map<bytes, bytes>, p: ProgramOp,
                                     content: bytes, chunks: seq<Chunk>)
    requires HasImage(files, p, content) && ReadsDecimals(resolve) && Placed(resolve, p, chunks)
    requires SparseOps(p, chunks).Some?
    ensures Expands(flash, resolve, files, p, content, chunks, SparseOps(p, chunks).value.0)
  {
    hide Strtoul, ReadsDecimals, Expands, Advance, ChunkOp, ChunkAccepted, SparseOps, SpannedSectors, NextStart, Home;
    SparseOpsStep(p, chunks);
    if |chunks| == 0 {
      NothingExpanded(flash, resolve, files, p, content);
    } else {
      var before, c := chunks[..|chunks| - 1], chunks[|chunks| - 1];
      assert before + [c] == chunks;
      var ops, q := SparseOps(p, before).value.0, SparseOps(p, before).value.1;
      SparseRun(flash, resolve, files, p, content, before);
      if !Written(c) {
        ExpandSkipped(flash, resolve, files, p, content, before, c, ops);
      } else {
        OpsStand(resolve, p, before);
        ExpandWritten(flash, resolve, files, p, content, before, c, ops, q);
      }
    }
  }

  lemma SparseOpsStep(p: ProgramOp, chunks: seq<Chunk>)
    requires 0 < p.sectorSize && p.startSector.Some? && SparseOps(p, chunks).Some?
    ensures |chunks| == 0 ==> chunks == [] && SparseOps(p, chunks).value == ([], p)
    ensures |chunks| > 0 ==>
              var before, c := chunks[..|chunks| - 1], chunks[|chunks| - 1];
              && SparseOps(p, before).Some?
              && var ops, q := SparseOps(p, before).value.0, SparseOps(p, before).value.1;
                 if c.size == 0 then SparseOps(p, chunks).value == (ops, q)
                 else && ChunkAccepted(p, c)
                      && SparseOps(p, chunks).value
                         == (if c.DontCareChunk? then ops else ops + [ChunkOp(q, c)], Advance(q, c))
  {
    hide ChunkAccepted, ChunkOp, Advance;
  }

  lemma NothingExpanded(flash: Flash, resolve: bytes -> nat, files: map<bytes, bytes>, p: ProgramOp, content: bytes)
    requires 0 < p.sectorSize && p.startSector.Some?
    ensures Expands(flash, resolve, files, p, content, [], [])
  {
  }

  lemma Spans(chunks: seq<Chunk>, c: Chunk, ss: nat)
    requires 0 < ss
    ensures SpannedSectors(chunks + [c], ss) == SpannedSectors(chunks, ss) + c.size / ss
  {
    assert (chunks + [c])[..|chunks|] == chunks;
  }

  lemma NothingSpanned(ss: nat)
    requires 0 < ss
    ensures 0 / ss == 0
  {
  }

  lemma ExpandSkipped(flash: Flash, resolve: bytes -> nat, files: map<bytes, bytes>, p: ProgramOp, content: bytes,
                      chunks: seq<Chunk>, c: Chunk, ops: seq<ProgramOp>)
    requires 0 < p.sectorSize && p.startSector.Some? && !Written(c)
    requires Expands(flash, resolve, files, p, content, chunks, ops)
    ensures Expands(flash, resolve, files, p, content, chunks + [c], ops)
  {
    hide HoldsImage, RunEffects, SpannedSectors, Home;
    Spans(chunks, c, p.sectorSize);
    SkippedChunk(flash, RunEffects(flash, resolve, files, ops).value, p.partition, Home(resolve, p), content, chunks, c,
                 p.sectorSize);
  }

  lemma ExpandWritten(flash: Flash, resolve: bytes -> nat, files: map<bytes, bytes>, p: ProgramOp, content: bytes,
                      chunks: seq<Chunk>, c: Chunk, ops: seq<ProgramOp>, q: ProgramOp)
    requires HasImage(files, p, content) && Written(c) && ChunkAccepted(p, c)
    requires Expands(flash, resolve, files, p, content, chunks, ops)
    requires q == p.(startSector := q.startSector) && q.startSector.Some?
    requires resolve(q.startSector.value) == Home(resolve, p) + SpannedSectors(chunks, p.sectorSize)
    ensures Expands(flash, resolve, files, p, content, chunks + [c], ops + [ChunkOp(q, c)])
  {
    hide Strtoul, HoldsImage, SpannedSectors, WriteSectors, ChunkBytes, ProgramEffect, RunEffects, ChunkOp, Ordered,
         Home;
    var ss, start := p.sectorSize, Home(resolve, p);
    var at := start + SpannedSectors(chunks, ss);
    var n := c.size / ss;
    assert c.size == n * ss;
    ChunkOpIs(q, c);
    Spans(chunks, c, ss);
    var f := RunEffects(flash, resolve, files, ops).value;
    var op := ChunkOp(q, c);
    WrittenChunk(flash, f, p.partition, start, content, chunks, c, ss, n);
    ChunkOpEffect(f, resolve, files, q, c, content);
    RunOneMore(flash, resolve, files, ops, op);
    OrderedOneMore(resolve, ops, op, start, at);
  }

  lemma ChunkOpIs(q: ProgramOp, c: Chunk)
    requires !c.DontCareChunk? && 0 < q.sectorSize && q.startSector.Some?
    ensures ChunkOp(q, c).sectorSize == q.sectorSize && ChunkOp(q, c).numSectors == c.size / q.sectorSize
    ensures StartText(ChunkOp(q, c)) == q.startSector.value
  {
  }

  lemma ChunkOpEffect(f: Flash, resolve: bytes -> nat, files: map<bytes, bytes>, q: ProgramOp, c: Chunk, content: bytes)
    requires 0 < q.sectorSize && q.sparse && q.filename.Some? && q.startSector.Some?
    requires q.filename.value in files && files[q.filename.value] == content
    requires !c.DontCareChunk? && c.size == c.size / q.sectorSize * q.sectorSize
    ensures ProgramEffect(f, resolve, files, ChunkOp(q, c))
         == Some(WriteSectors(f, q.partition, resolve(q.startSector.value), q.sectorSize, ChunkBytes(content, c)))
  {
    hide WriteSectors, Padded, FillPattern;
  }

  lemma RunOneMore(flash: Flash, resolve: bytes -> nat, files: map<bytes, bytes>, ops: seq<ProgramOp>, op: ProgramOp)
    requires forall i :: 0 <= i < |ops| ==> 0 < ops[i].sectorSize
    requires 0 < op.sectorSize && RunEffects(flash, resolve, files, ops).Some?
    ensures RunEffects(flash, resolve, files, ops + [op])
         == ProgramEffect(RunEffects(flash, resolve, files, ops).value, resolve, files, op)
  {
    hide ProgramEffect;
    assert (ops + [op])[..|ops|] == ops;
  }

  lemma OrderedOneMore(resolve: bytes -> nat, ops: seq<ProgramOp>, op: ProgramOp, from: nat, at: nat)
    requires Ordered(resolve, ops, from, at) && resolve(StartText(op)) == at && from <= at
    ensures Ordered(resolve, ops + [op], from, at + op.numSectors)
  {
    hide StartText;
  }

  // ----- Exactly when

  lemma {:induction false} OpsRun(flash: Flash, resolve: bytes -> nat, files: map<bytes, bytes>, p: ProgramOp,
                                  content: bytes, chunks: seq<Chunk>)
    requires HasImage(files, p, content) && SparseOps(p, chunks).Some?
    ensures var ops := SparseOps(p, chunks).value.0;
            && (forall i :: 0 <= i < |ops| ==> ops[i].sectorSize == p.sectorSize)
            && RunEffects(flash, resolve, files, ops).Some?
  {
    hide ChunkOp, Advance, RunEffects, SparseOps, ChunkBytes, ProgramEffect, WriteSectors;
    SparseOpsStep(p, chunks);
    if |chunks| == 0 {
      NothingRun(flash, resolve, files);
    } else {
      var before, c := chunks[..|chunks| - 1], chunks[|chunks| - 1];
      OpsRun(flash, resolve, files, p, content, before);
      var ops, q := SparseOps(p, before).value.0, SparseOps(p, before).value.1;
      if Written(c) {
        ChunkOpIs(q, c);
        assert c.size == c.size / p.sectorSize * p.sectorSize;
        ChunkOpEffect(RunEffects(flash, resolve, files, ops).value, resolve, files, q, c, content);
        RunOneMore(flash, resolve, files, ops, ChunkOp(q, c));
      }
    }
  }

  lemma NothingRun(flash: Flash, resolve: bytes -> nat, files: map<bytes, bytes>)
    ensures RunEffects(flash, resolve, files, []) == Some(flash)
  {
  }

  /** The operations of the chunks, run in order, leave the expanded chunks in flash, and nothing else changed. */
  ghost predicate LeavesImage(flash: Flash, resolve: bytes -> nat, files: map<bytes, bytes>, p: ProgramOp,
                              content: bytes, chunks: seq<Chunk>)
    requires HasImage(files, p, content) && SparseOps(p, chunks).Some?
  {
    OpsRun(flash, resolve, files, p, content, chunks);
    HoldsImage(flash, RunEffects(flash, resolve, files, SparseOps(p, chunks).value.0).value, p.partition,
               Home(resolve, p), content, chunks, p.sectorSize)
  }

  lemma {:induction false} OpsOfPrefix(p: ProgramOp, chunks: seq<Chunk>, k: nat)
    requires 0 < p.sectorSize && p.startSector.Some? && SparseOps(p, chunks).Some? && k <= |chunks|
    ensures SparseOps(p, chunks[..k]).Some?
  {
    hide ChunkOp, Advance, ChunkAccepted;
    if k < |chunks| {
      OpsOfPrefix(p, chunks[..|chunks| - 1], k);
      assert chunks[..|chunks| - 1][..k] == chunks[..k];
    } else {
      assert chunks[..k] == chunks;
    }
  }

  /** A chunk that goes elsewhere misses a sector of the image, or reaches one that is not of it. */
  lemma Misplaced(resolve: bytes -> nat, files: map<bytes, bytes>, p: ProgramOp, content: bytes, chunks: seq<Chunk>,
                  c: Chunk)
    requires HasImage(files, p, content) && ReadsDecimals(resolve) && SparseOps(p, chunks + [c]).Some?
    requires SparseOps(p, chunks).Some? && Placed(resolve, p, chunks) && !Placed(resolve, p, chunks + [c])
    ensures !LeavesImage(map[], resolve, files, p, content, chunks + [c])
  {
    hide Strtoul, ReadsDecimals, SparseOps, ChunkOp, ChunkAccepted, Advance, SpannedSectors, NextStart, Home,
         RunEffects, ProgramEffect, HoldsImage, Ordered, WriteSectors, ChunkBytes;
    var ss, start, n := p.sectorSize, Home(resolve, p), c.size / p.sectorSize;
    assert (chunks + [c])[..|chunks|] == chunks;
    SparseOpsStep(p, chunks + [c]);
    SparseRun(map[], resolve, files, p, content, chunks);
    OpsStand(resolve, p, chunks);
    var ops, q := SparseOps(p, chunks).value.0, SparseOps(p, chunks).value.1;
    var f := RunEffects(map[], resolve, files, ops).value;
    AcceptedSize(p, c);
    ChunkOpIs(q, c);
    ChunkOpEffect(f, resolve, files, q, c, content);
    RunOneMore(map[], resolve, files, ops, ChunkOp(q, c));
    ElsewhereShows(f, p.partition, start, content, chunks, c, ss, n, NextStart(resolve, p, chunks));
  }

  lemma AcceptedSize(p: ProgramOp, c: Chunk)
    requires 0 < p.sectorSize && ChunkAccepted(p, c) && c.size > 0
    ensures c.size == c.size / p.sectorSize * p.sectorSize && c.size / p.sectorSize > 0
  {
  }

  lemma ElsewhereShows(f: Flash, p: int, start: nat, content: bytes, chunks: seq<Chunk>, c: Chunk, ss: nat, n: nat,
                       at: nat)
    requires 0 < ss && HoldsImage(map[], f, p, start, content, chunks, ss)
    requires Written(c) && c.size == n * ss && n == c.size / ss && n > 0
    requires at != start + SpannedSectors(chunks, ss)
    ensures !HoldsImage(map[], WriteSectors(f, p, at, ss, ChunkBytes(content, c)), p, start, content, chunks + [c], ss)
  {
    hide WriteSectors, SpannedSectors, ChunkBytes, Padded, FillFrom;
    var home := start + SpannedSectors(chunks, ss);
    assert (chunks + [c])[..|chunks|] == chunks;
    ChunkLength(content, c);
    Spans(chunks, c, ss);
    var a := Addr(p, if at < home then home + n - 1 else at + n - 1);
    WriteAdds(f, p, at, ss, ChunkBytes(content, c), n, a);
    assert HoldsSector(map[], f, p, start, content, chunks, ss, a);
    BeyondImage(content, chunks, ss, a.sector - start);
    BeyondImage(content, chunks + [c], ss, a.sector - start);
    assert !HoldsSector(map[], WriteSectors(f, p, at, ss, ChunkBytes(content, c)), p, start, content, chunks + [c], ss,
                        a);
  }

  lemma {:induction false} FirstMisplaced(resolve: bytes -> nat, files: map<bytes, bytes>, p: ProgramOp, content: bytes,
                                          chunks: seq<Chunk>) returns (k: nat)
    requires HasImage(files, p, content) && ReadsDecimals(resolve) && SparseOps(p, chunks).Some?
    requires !Placed(resolve, p, chunks)
    ensures k <= |chunks| && SparseOps(p, chunks[..k]).Some?
    ensures !LeavesImage(map[], resolve, files, p, content, chunks[..k])
  {
    hide ReadsDecimals, SparseOps, LeavesImage, NextStart;
    var init := chunks[..|chunks| - 1];
    SparseOpsStep(p, chunks);
    if Placed(resolve, p, init) {
      k := |chunks|;
      assert init + [chunks[|chunks| - 1]] == chunks == chunks[..k];
      Misplaced(resolve, files, p, content, init, chunks[|chunks| - 1]);
    } else {
      k := FirstMisplaced(resolve, files, p, content, init);
      assert init[..k] == chunks[..k];
    }
  }

  /**
   * Chunk by chunk, and on every flash, the operations leave the image expanded so far, exactly
   * when nothing but the image's start is written, or its start sector is the number that
   * strtoul reads and the sector number of the last written chunk fits 32 bits.
   */
  lemma SparseRunIff(resolve: bytes -> nat, files: map<bytes, bytes>, p: ProgramOp, content: bytes, chunks: seq<Chunk>)
    requires HasImage(files, p, content) && ReadsDecimals(resolve) && SparseOps(p, chunks).Some?
    ensures forall k: nat :: k <= |chunks| ==> SparseOps(p, chunks[..k]).Some?
    ensures (forall flash, k: nat | k <= |chunks| :: LeavesImage(flash, resolve, files, p, content, chunks[..k]))
        <==> Numeric(resolve, p, chunks)
  {
    hide ReadsDecimals, SparseOps, LeavesImage, Placed, Numeric, Expands;
    forall k: nat | k <= |chunks| ensures SparseOps(p, chunks[..k]).Some? { OpsOfPrefix(p, chunks, k); }
    PlacedIff(resolve, p, chunks);
    if Placed(resolve, p, chunks) {
      forall flash, k: nat | k <= |chunks|
        ensures LeavesImage(flash, resolve, files, p, content, chunks[..k])
      {
        PlacedPrefix(resolve, p, chunks, k);
        PlacedLeaves(flash, resolve, files, p, content, chunks[..k]);
      }
    } else {
      var k := FirstMisplaced(resolve, files, p, content, chunks);
    }
  }

  lemma {:induction false} PlacedPrefix(resolve: bytes -> nat, p: ProgramOp, chunks: seq<Chunk>, k: nat)
    requires 0 < p.sectorSize && p.startSector.Some? && Placed(resolve, p, chunks) && k <= |chunks|
    ensures Placed(resolve, p, chunks[..k])
  {
    hide NextStart;
    if k < |chunks| {
      PlacedPrefix(resolve, p, chunks[..|chunks| - 1], k);
      assert chunks[..|chunks| - 1][..k] == chunks[..k];
    } else {
      assert chunks[..k] == chunks;
    }
  }

  lemma PlacedLeaves(flash: Flash, resolve: bytes -> nat, files: map<bytes, bytes>, p: ProgramOp, content: bytes,
                     chunks: seq<Chunk>)
    requires HasImage(files, p, content) && ReadsDecimals(resolve) && SparseOps(p, chunks).Some?
    requires Placed(resolve, p, chunks)
    ensures LeavesImage(flash, resolve, files, p, content, chunks)
  {
    hide HoldsImage, SparseOps, ReadsDecimals, Placed;
    SparseRun(flash, resolve, files, p, content, chunks);
  }

  /** A symbolic start sector, as image tools write it for the end of a disk, and a chunk behind the first. */
  lemma SymbolicImageFails(resolve: bytes -> nat, files: map<bytes, bytes>, p: ProgramOp, content: bytes,
                           chunks: seq<Chunk>)
    requires HasImage(files, p, content) && ReadsDecimals(resolve) && SparseOps(p, chunks).Some?
    requires p.startSector == Some(Text("NUM_DISK_SECTORS-33.")) && Home(resolve, p) > 0
    requires LastWritten(chunks, p.sectorSize) > 0
    ensures forall k: nat :: k <= |chunks| ==> SparseOps(p, chunks[..k]).Some?
    ensures exists k: nat :: k <= |chunks| && !LeavesImage(map[], resolve, files, p, content, chunks[..k])
  {
    hide ReadsDecimals, SparseOps, LeavesImage, Placed, LastWritten, Home;
    forall k: nat | k <= |chunks| ensures SparseOps(p, chunks[..k]).Some? { OpsOfPrefix(p, chunks, k); }
    PlacedIff(resolve, p, chunks);
    assert Strtoul(p.startSector.value, 0).0 == 0 by { SymbolIsZero(p.startSector.value); }
    var k := FirstMisplaced(resolve, files, p, content, chunks);
  }

  // ----- Loading and programming

  /** Every fill of an image is in phase. */
  predicate FillsInPhase(chunks: seq<Chunk>, maxPayload: nat, ss: nat)
    requires 0 < ss <= maxPayload
  {
    forall i :: 0 <= i < |chunks| && chunks[i].FillChunk? && chunks[i].size > 0 ==>
                  KeepsPhase(maxPayload, ss, chunks[i].size / ss)
  }

  /** Every fill of an image repeats a whole number of times in the buffer. */
  predicate FillsFit(chunks: seq<Chunk>, maxPayload: nat) {
    forall i :: 0 <= i < |chunks| && chunks[i].FillChunk? && chunks[i].size > 0 ==> maxPayload % 4 == 0
  }

  lemma {:induction false} OpsFit(p: ProgramOp, chunks: seq<Chunk>, maxPayload: nat)
    requires 0 < p.sectorSize <= maxPayload && p.startSector.Some? && SparseOps(p, chunks).Some?
    requires FillsFit(chunks, maxPayload)
    ensures var ops := SparseOps(p, chunks).value.0;
            forall i :: 0 <= i < |ops| ==>
                          && ops[i].sectorSize == p.sectorSize && FillFits(ops[i], maxPayload)
                          && (FillsInPhase(chunks, maxPayload, p.sectorSize) ==> InPhase(ops[i], maxPayload))
  {
    hide Strtoul, Decimal, KeepsPhase;
    if |chunks| > 0 {
      var before, c := chunks[..|chunks| - 1], chunks[|chunks| - 1];
      assert forall i :: 0 <= i < |before| ==> before[i] == chunks[i];
      OpsFit(p, before, maxPayload);
    }
  }

  /** Program operations, one after the other. */
  method ProgramAll(t: Target, files: map<bytes, bytes>, ops: seq<ProgramOp>, maxPayload: nat)
    requires forall i :: 0 <= i < |ops| ==> 0 < ops[i].sectorSize <= maxPayload && FillFits(ops[i], maxPayload)
    requires RunEffects(t.flash, t.resolve, files, ops).Some?
    modifies t
    ensures (forall i :: 0 <= i < |ops| ==> InPhase(ops[i], maxPayload)) ==>
              t.flash == RunEffects(old(t.flash), t.resolve, files, ops).value
  {
    hide ProgramEffect, InPhase, ProgramStream, WriteSectors, RunEffects;
    ghost var flash0 := t.flash;
    NothingRun(flash0, t.resolve, files);
    assert ops[..0] == [];
    for i := 0 to |ops|
      invariant (forall j :: 0 <= j < |ops| ==> InPhase(ops[j], maxPayload)) ==>
                  RunEffects(flash0, t.resolve, files, ops[..i]) == Some(t.flash)
    {
      RunSplits(flash0, t.resolve, files, ops, i);
      var ok := FirehoseProgram(t, files, ops[i], maxPayload);
    }
    assert ops[..|ops|] == ops;
  }

  lemma SkipsParent(flash: Flash, resolve: bytes -> nat, files: map<bytes, bytes>, q: ProgramOp)
    requires 0 < q.sectorSize
    ensures ProgramEffect(flash, resolve, files, q.(filename := None)) == Some(flash)
  {
  }

  /** A run that succeeds succeeds at every operation. */
  lemma {:induction false} RunSplits(flash: Flash, resolve: bytes -> nat, files: map<bytes, bytes>, ops: seq<ProgramOp>,
                                     i: nat)
    requires forall j :: 0 <= j < |ops| ==> 0 < ops[j].sectorSize
    requires i < |ops| && RunEffects(flash, resolve, files, ops).Some?
    ensures RunEffects(flash, resolve, files, ops[..i]).Some? && RunEffects(flash, resolve, files, ops[..i + 1]).Some?
    ensures RunEffects(flash, resolve, files, ops[..i + 1])
         == ProgramEffect(RunEffects(flash, resolve, files, ops[..i]).value, resolve, files, ops[i])
  {
    hide ProgramEffect;
    var n := |ops| - 1;
    assert ops[..i + 1][..i] == ops[..i];
    if i < n {
      RunSplits(flash, resolve, files, ops[..n], i);
      assert ops[..n][..i] == ops[..i] && ops[..n][..i + 1] == ops[..i + 1];
    } else {
      assert ops[..i + 1] == ops;
    }
  }

  lemma ExpandedRun(flash: Flash, resolve: bytes -> nat, files: map<bytes, bytes>, p: ProgramOp, content: bytes,
                    chunks: seq<Chunk>, ops: seq<ProgramOp>)
    requires 0 < p.sectorSize && p.startSector.Some? && Expands(flash, resolve, files, p, content, chunks, ops)
    ensures forall i :: 0 <= i < |ops| ==> ops[i].sectorSize == p.sectorSize
    ensures RunEffects(flash, resolve, files, ops).Some?
    ensures HoldsImage(flash, RunEffects(flash, resolve, files, ops).value, p.partition, Home(resolve, p), content,
                       chunks, p.sectorSize)
  {
    hide HoldsImage;
  }
}

/**
 * Programming a region of flash: the streaming loop, the plain path and the
 * `--skipblock` path, which digests the region chunk by chunk and rewrites only the
 * chunks that differ.
 */
module Programming {
  import opened Bytes
  import opened Options
  import opened Sha256Spec
  import opened Sha2
  import opened Numerals
  import opened Flash
  import opened Files

  /** A programmer with storage; `resolve` is how it evaluates a start_sector expression. */
  class Target {
    var flash: Flash
    var partition: int
    var cursor: nat
    var sectorSize: nat
    const resolve: bytes -> nat

    constructor (flash: Flash, resolve: bytes -> nat)
      ensures this.flash == flash && this.resolve == resolve
    {
      this.flash, this.resolve := flash, resolve;
      partition, cursor, sectorSize := 0, 0, 512;
    }

    /** Accept a program request. */
    method Begin(p: int, start: bytes, ss: nat)
      modifies this
      ensures flash == old(flash) && partition == p && cursor == resolve(start) && sectorSize == ss
    {
      partition, cursor, sectorSize := p, resolve(start), ss;
    }

    /** Accept raw data: whole sectors, stored one after the other. */
    method RawIn(data: bytes, ghost n: nat)
      requires 0 < sectorSize && |data| == n * sectorSize
      modifies this
      ensures cursor == old(cursor) + n && partition == old(partition) && sectorSize == old(sectorSize)
      ensures flash == WriteSectors(old(flash), partition, old(cursor), sectorSize, data)
    {
      flash := WriteSectors(flash, partition, cursor, sectorSize, data);
      DivideExactly(n, sectorSize);
      cursor := cursor + |data| / sectorSize;
    }

    /** Answer a digest request honestly, or not at all. */
    method GetSha256Digest(p: int, start: bytes, num: nat, ss: nat, replies: bool) returns (digest: Option<bytes>)
      ensures digest.Some? ==>
                Covers(flash, p, resolve(start), num, ss)
                && digest.value == Sha256(Region(flash, p, resolve(start), num, ss))
      ensures digest.Some? <==> replies && Covers(flash, p, resolve(start), num, ss)
    {
      if replies && Covers(flash, p, resolve(start), num, ss) {
        digest := Some(Sha256(Region(flash, p, resolve(start), num, ss)));
      } else {
        digest := None;
      }
    }
  }

  lemma DivideExactly(n: nat, d: nat)
    requires 0 < d
    ensures n * d / d == n
  {
    var q, r := n * d / d, n * d % d;
    assert (n - q) * d == r;
    if q < n { AtLeast(n - q, d); }
  }

  lemma {:induction false} AtLeast(k: nat, d: nat)
    requires 0 < k
    ensures d <= k * d
  {
    if k > 1 { AtLeast(k - 1, d); }
  }

  lemma Distribute(a: nat, b: nat, d: nat)
    ensures (a + b) * d == a * d + b * d && a * d >= 0 && b * d >= 0
  {
  }

  // ----- The streaming loop

  /** A repeating 32-bit fill value, least significant octet first. */
  function FillPattern(value: nat, len: nat): (r: bytes)
    ensures |r| == len
  {
    seq(len, i requires 0 <= i < len => FillByte(value, i))
  }

  function FillByte(value: nat, i: nat): byte {
    match i % 4
    case 0 => value % 256
    case 1 => value / 0x100 % 256
    case 2 => value / 0x1_0000 % 256
    case 3 => value / 0x100_0000 % 256
  }

  /** Four octets, over and over. */
  predicate Repeats(b: bytes, v: bytes)
    requires |v| == 4
  {
    forall i :: 0 <= i < |b| ==> b[i] == v[i % 4]
  }

  lemma FillIsOctet(v: bytes, i: nat)
    requires |v| == 4
    ensures FillByte(LittleEndian(v), i) == v[i % 4]
  {
    assert v == [v[0], v[1], v[2], v[3]];
    OctetsRead(v[0], v[1], v[2], v[3]);
    OctetsFilled(v[0], v[1], v[2], v[3]);
    hide LittleEndian;
  }

  lemma OctetsRead(a: byte, b: byte, c: byte, d: byte)
    ensures LittleEndian([a, b, c, d]) == a + 0x100 * (b + 0x100 * (c + 0x100 * d))
  {
    assert LittleEndian([d]) == d by { assert [d][1..] == []; }
    assert LittleEndian([c, d]) == c + 256 * d by { assert [c, d][1..] == [d]; }
    assert LittleEndian([b, c, d]) == b + 256 * (c + 256 * d) by { assert [b, c, d][1..] == [c, d]; }
    assert [a, b, c, d][1..] == [b, c, d];
  }

  lemma OctetsFilled(a: byte, b: byte, c: byte, d: byte)
    ensures var v := a + 0x100 * (b + 0x100 * (c + 0x100 * d));
            FillByte(v, 0) == a && FillByte(v, 1) == b && FillByte(v, 2) == c && FillByte(v, 3) == d
  {
  }

  /** A fill repeats the four octets that its value was read from, in their order. */
  lemma FillRepeats(v: bytes, len: nat)
    requires |v| == 4
    ensures Repeats(FillPattern(LittleEndian(v), len), v)
  {
    hide LittleEndian, FillByte;
    forall i | 0 <= i < len ensures FillPattern(LittleEndian(v), len)[i] == v[i % 4] { FillIsOctet(v, i); }
  }

  lemma FillContinues(value: nat, a: nat, b: nat)
    requires a % 4 == 0
    ensures FillPattern(value, a + b) == FillPattern(value, a) + FillPattern(value, b)
  {
    hide FillByte;
    forall i | 0 <= i < b
      ensures FillByte(value, a + i) == FillByte(value, i)
    {
      FillByteCycles(value, a, i);
    }
  }

  lemma FillByteCycles(value: nat, a: nat, i: nat)
    requires a % 4 == 0
    ensures FillByte(value, a + i) == FillByte(value, i)
  {
    assert (a + i) % 4 == i % 4;
  }

  /** Where the data of a stream comes from. */
  datatype Source = FromFile(content: bytes, pos: nat) | Fill(value: nat)

  /** The first `len` bytes of a stream. */
  function StreamData(src: Source, len: nat): (r: bytes)
    ensures |r| == len
  {
    match src
    case FromFile(content, pos) => Padded(content, pos, len)
    case Fill(value) => FillPattern(value, len)
  }

  /** The bytes in a full frame: whole sectors, as many as the payload holds. */
  function FrameBytes(maxPayload: nat, ss: nat): (r: nat)
    requires 0 < ss <= maxPayload
    ensures 0 < r <= maxPayload && r == maxPayload / ss * ss
  {
    ChunkFits(maxPayload, ss, maxPayload / ss);
    AtLeast(maxPayload / ss, ss);
    maxPayload / ss * ss
  }

  /** A fill pattern that restarts with every frame. */
  function Framed(value: nat, frame: nat, len: nat): (r: bytes)
    requires 0 < frame
    ensures |r| == len
  {
    seq(len, i requires 0 <= i < len => FillByte(value, i % frame))
  }

  /** What is streamed for `num` sectors: the data, but for the restarts of a fill pattern. */
  function Streamed(src: Source, maxPayload: nat, ss: nat, num: nat): (r: bytes)
    requires 0 < ss <= maxPayload
    ensures |r| == num * ss
  {
    match src
    case FromFile(_, _) => StreamData(src, num * ss)
    case Fill(value) => Framed(value, FrameBytes(maxPayload, ss), num * ss)
  }

  /** What is streamed of a fill repeats the octets of its value in every frame, from the first octet on. */
  lemma StreamedRepeats(v: bytes, maxPayload: nat, ss: nat, num: nat, i: nat)
    requires |v| == 4 && 0 < ss <= maxPayload && i < num * ss
    ensures 0 < maxPayload / ss * ss
    ensures Streamed(Fill(LittleEndian(v)), maxPayload, ss, num)[i] == v[i % (maxPayload / ss * ss) % 4]
  {
    hide LittleEndian, FillByte;
    var frame := FrameBytes(maxPayload, ss);
    FillIsOctet(v, i % frame);
  }

  /** A fill that is a single frame, or whose frames are whole repetitions of the value. */
  predicate KeepsPhase(maxPayload: nat, ss: nat, num: nat)
    requires 0 < ss <= maxPayload
  {
    num <= maxPayload / ss || FrameBytes(maxPayload, ss) % 4 == 0
  }

  /** Every fill value comes out as it is meant exactly when the phase is kept. */
  lemma PhaseIff(maxPayload: nat, ss: nat, num: nat)
    requires 0 < ss <= maxPayload
    ensures (forall value: nat :: Streamed(Fill(value), maxPayload, ss, num) == StreamData(Fill(value), num * ss))
        <==> KeepsPhase(maxPayload, ss, num)
  {
    if KeepsPhase(maxPayload, ss, num) {
      forall value: nat
        ensures Streamed(Fill(value), maxPayload, ss, num) == StreamData(Fill(value), num * ss)
      {
        PhaseKept(value, maxPayload, ss, num);
      }
    } else {
      var per, frame := maxPayload / ss, FrameBytes(maxPayload, ss);
      assert frame < num * ss by { Distribute(per, num - per, ss); AtLeast(num - per, ss); }
      OutOfPhase(frame, num * ss);
      assert Streamed(Fill(1), maxPayload, ss, num) != StreamData(Fill(1), num * ss);
    }
  }

  /** Behind the first frame the value 1 starts again, too soon or too late. */
  lemma OutOfPhase(frame: nat, len: nat)
    requires 0 < frame < len && frame % 4 != 0
    ensures Framed(1, frame, len) != FillPattern(1, len)
  {
    RestOfFrame(1, 0, frame);
    assert Framed(1, frame, len)[frame] == FillByte(1, 0) == 1;
    assert FillPattern(1, len)[frame] == FillByte(1, frame) == 0;
  }

  lemma PhaseKept(value: nat, maxPayload: nat, ss: nat, num: nat)
    requires 0 < ss <= maxPayload && KeepsPhase(maxPayload, ss, num)
    ensures Streamed(Fill(value), maxPayload, ss, num) == StreamData(Fill(value), num * ss)
  {
    hide FillByte;
    var per, frame := maxPayload / ss, FrameBytes(maxPayload, ss);
    assert frame == per * ss;
    if num <= per { Distribute(num, per - num, ss); }
    FramedInPhase(value, frame, num * ss);
  }

  lemma FramedInPhase(value: nat, frame: nat, len: nat)
    requires 0 < frame && (len <= frame || frame % 4 == 0)
    ensures Framed(value, frame, len) == FillPattern(value, len)
  {
    hide FillByte;
    forall i: nat | i < len
      ensures Framed(value, frame, len)[i] == FillPattern(value, len)[i]
    {
      if frame % 4 == 0 { SamePhase(value, i, frame); } else { RestOfFrame(0, i, frame); }
    }
  }

  lemma SamePhase(value: nat, i: nat, frame: nat)
    requires 0 < frame && frame % 4 == 0
    ensures FillByte(value, i % frame) == FillByte(value, i)
  {
    hide FillByte;
    var q, r := Division(i, frame);
    SamePhaseAt(value, q, r, frame);
  }

  lemma SamePhaseAt(value: nat, q: nat, r: nat, frame: nat)
    requires frame % 4 == 0
    ensures 0 <= q * frame && FillByte(value, q * frame + r) == FillByte(value, r)
  {
    hide FillByte;
    MultipleOfFour(q, frame);
    FillByteCycles(value, q * frame, r);
  }

  lemma Division(i: nat, d: nat) returns (q: nat, r: nat)
    requires 0 < d
    ensures i == q * d + r && r == i % d
  {
    q, r := i / d, i % d;
  }

  /**
   * `firehose_stream_out` for `num` sectors. A fill pattern already sits in `pattern`, and
   * restarts with every frame.
   */
  method StreamOut(t: Target, file: QdlFile, num: nat, maxPayload: nat, fill: Option<nat>, pattern: bytes)
    requires 0 < t.sectorSize <= maxPayload && file.burst > 0
    requires fill.Some? ==> pattern == FillPattern(fill.value, maxPayload)
    modifies t, file
    ensures t.partition == old(t.partition) && t.sectorSize == old(t.sectorSize)
    ensures var src := if fill.Some? then Fill(fill.value) else FromFile(file.content, old(file.pos));
            t.flash == WriteSectors(old(t.flash), t.partition, old(t.cursor), t.sectorSize,
                                    Streamed(src, maxPayload, t.sectorSize, num))
    ensures fill.None? ==>
              file.pos == old(file.pos) + |Available(file.content, old(file.pos), num * old(t.sectorSize))|
  {
    hide WriteSectors, Streamed, Available, FillPattern;
    var ss := t.sectorSize;
    ghost var src := if fill.Some? then Fill(fill.value) else FromFile(file.content, file.pos);
    ghost var start := file.pos;
    var left := num;
    ghost var done := 0;
    ghost var frames := 0;
    StreamStart(src, t.flash, t.partition, t.cursor, ss, maxPayload);
    AvailableNothing(file.content, start);
    while left > 0
      invariant left + done == num && t.sectorSize == ss && t.partition == old(t.partition)
      invariant t.cursor == old(t.cursor) + done
      invariant 0 <= done * ss
      invariant left > 0 ==> done == frames * (maxPayload / ss)
      invariant t.flash
        == WriteSectors(old(t.flash), t.partition, old(t.cursor), ss, Streamed(src, maxPayload, ss, done))
      invariant fill.None? ==> file.pos == start + |Available(file.content, start, done * ss)|
    {
      var chunk := Min(maxPayload / ss, left);
      ChunkFits(maxPayload, ss, chunk);
      ghost var pos := file.pos;
      var buf;
      if fill.None? {
        buf := file.ReadPadded(chunk * ss);
        AvailableContinues(file.content, start, done * ss, chunk * ss);
      } else {
        buf := pattern[..chunk * ss];
        FillBegins(fill.value, chunk * ss, maxPayload);
      }
      StreamContinues(src, frames, done, chunk, maxPayload, ss, buf, pos);
      WriteSectorsAppend(old(t.flash), t.partition, old(t.cursor), ss, Streamed(src, maxPayload, ss, done), done, buf);
      t.RawIn(buf, chunk);
      Distribute(done, chunk, ss);
      if chunk == maxPayload / ss { Distribute(frames, 1, maxPayload / ss); }
      left := left - chunk;
      done := done + chunk;
      frames := frames + 1;
    }
  }

  lemma FillBegins(value: nat, len: nat, whole: nat)
    requires len <= whole
    ensures FillPattern(value, whole)[..len] == FillPattern(value, len)
  {
    hide FillByte;
  }

  lemma ChunkFits(maxPayload: nat, ss: nat, chunk: nat)
    requires 0 < ss <= maxPayload && chunk <= maxPayload / ss
    ensures 0 <= chunk * ss <= maxPayload && maxPayload / ss > 0
  {
    assert chunk * ss <= maxPayload / ss * ss;
  }

  lemma StreamStart(src: Source, flash: Flash, p: int, start: nat, ss: nat, maxPayload: nat)
    requires 0 < ss <= maxPayload
    ensures 0 * ss == 0 && WriteSectors(flash, p, start, ss, Streamed(src, maxPayload, ss, 0)) == flash
  {
    assert |Streamed(src, maxPayload, ss, 0)| == 0;
  }

  lemma AvailableContinues(content: bytes, pos: nat, a: nat, b: nat)
    ensures |Available(content, pos, a + b)|
         == |Available(content, pos, a)| + |Available(content, pos + |Available(content, pos, a)|, b)|
  {
  }

  /** The next chunk of a stream carries it on. */
  lemma StreamContinues(src: Source, frames: nat, done: nat, chunk: nat, maxPayload: nat, ss: nat, buf: bytes, pos: nat)
    requires 0 < ss <= maxPayload && chunk <= maxPayload / ss && done == frames * (maxPayload / ss)
    requires 0 <= done * ss && 0 <= chunk * ss
    requires src.FromFile? ==> pos == src.pos + |Available(src.content, src.pos, done * ss)|
                               && buf == Padded(src.content, pos, chunk * ss)
    requires src.Fill? ==> buf == FillPattern(src.value, chunk * ss)
    ensures Streamed(src, maxPayload, ss, done + chunk) == Streamed(src, maxPayload, ss, done) + buf
  {
    hide Padded, FillPattern, Framed;
    Distribute(done, chunk, ss);
    match src {
      case FromFile(content, start) => PaddedContinues(content, start, done * ss, chunk * ss);
      case Fill(value) =>
        var frame := FrameBytes(maxPayload, ss);
        Distribute(chunk, maxPayload / ss - chunk, ss);
        assert done * ss == frames * frame by { Regroup(frames, maxPayload / ss, ss); }
        FrameContinues(value, frame, frames, chunk * ss);
    }
  }

  lemma Regroup(a: nat, b: nat, c: nat)
    ensures a * b * c == a * (b * c)
  {
  }

  /** The bytes behind `frames` whole frames. */
  lemma FrameContinues(value: nat, frame: nat, frames: nat, len: nat)
    requires 0 < frame && len <= frame
    ensures 0 <= frames * frame
    ensures Framed(value, frame, frames * frame + len) == Framed(value, frame, frames * frame) + FillPattern(value, len)
  {
    hide FillByte;
    var at := frames * frame;
    var whole, before, more := Framed(value, frame, at + len), Framed(value, frame, at), FillPattern(value, len);
    forall i | 0 <= i < len
      ensures whole[at + i] == more[i]
    {
      RestOfFrame(frames, i, frame);
    }
    assert forall i :: 0 <= i < at ==> whole[i] == before[i];
    assert whole == before + more;
  }

  lemma RestOfFrame(n: nat, r: nat, d: nat)
    requires r < d
    ensures (n * d + r) % d == r
  {
    var q, m := (n * d + r) / d, (n * d + r) % d;
    assert (n - q) * d == m - r;
    if n > q { AtLeast(n - q, d); }
    if n < q { AtLeast(q - n, d); }
  }

  lemma MultipleOfFour(n: nat, ss: nat)
    requires ss % 4 == 0
    ensures n * ss >= 0 && n * ss % 4 == 0
  {
    assert ss == 4 * (ss / 4);
    assert n * ss == 4 * (n * (ss / 4));
  }

  // ----- Skipblock

  const SKIPBLOCK_CHUNK_BYTES := 0x2000_0000

  /** The attributes of a program entry that address its data. */
  datatype Entry = Entry(partition: int, startSector: bytes, fileOffset: nat)

  /** `firehose_region_local_digest`: the SHA-256 of a padded file region, hashed in pieces. */
  method RegionLocalDigest(file: QdlFile, off: nat, regionBytes: nat, maxPayload: nat) returns (digest: bytes)
    requires file.burst > 0 && maxPayload > 0
    modifies file
    ensures var start := if file.kind == Posix then off else old(file.pos);
            && digest == Sha256(Padded(file.content, start, regionBytes))
            && file.pos == start + |Available(file.content, start, regionBytes)|
  {
    hide Sha256, Context.Valid, Padded, Available;
    var ctx := new Context();
    ctx.Init();
    var _ := file.Seek(off);
    ghost var data := Available(file.content, file.pos, regionBytes);
    PaddedIs(file.content, file.pos, regionBytes);
    var hashed := HashFile(ctx, file, regionBytes, maxPayload);
    HashZeros(ctx, hashed, regionBytes, maxPayload);
    digest := ctx.Final();
  }

  /** Hash what the file has of a region. */
  method HashFile(ctx: Context, file: QdlFile, regionBytes: nat, maxPayload: nat) returns (hashed: nat)
    requires file.burst > 0 && maxPayload > 0 && ctx.Valid() && ctx.Message == []
    modifies file, ctx, ctx.state, ctx.buffer
    ensures ctx.Valid() && ctx.Message == Available(file.content, old(file.pos), regionBytes)
    ensures hashed == |ctx.Message| && file.pos == old(file.pos) + hashed
  {
    hide Sha256, Context.Valid, Available;
    ghost var start := file.pos;
    hashed := 0;
    AvailableNothing(file.content, start);
    while hashed < regionBytes
      invariant 0 <= hashed <= regionBytes && file.pos == start + hashed
      invariant ctx.Valid() && ctx.Message == Available(file.content, start, hashed) && |ctx.Message| == hashed
    {
      var want := Min(maxPayload, regionBytes - hashed);
      var buf := file.ReadExact(want);
      AvailableAppend(file.content, start, hashed, want);
      if |buf| > 0 {
        ctx.Update(buf);
        hashed := hashed + |buf|;
      }
      if |buf| < want {
        AvailableEnds(file.content, start, hashed - |buf|, want, regionBytes);
        break;  // end of file, the remainder is zero-pad
      }
    }
  }

  /** Hash the zeros behind the end of the file. */
  method HashZeros(ctx: Context, from: nat, regionBytes: nat, maxPayload: nat)
    requires maxPayload > 0 && ctx.Valid() && from <= regionBytes
    modifies ctx, ctx.state, ctx.buffer
    ensures ctx.Valid() && ctx.Message == old(ctx.Message) + Zeros(regionBytes - from)
  {
    hide Context.Valid;
    ghost var data := ctx.Message;
    var hashed := from;
    while hashed < regionBytes
      invariant from <= hashed <= regionBytes
      invariant ctx.Valid() && ctx.Message == data + Zeros(hashed - from)
    {
      var pad := Min(maxPayload, regionBytes - hashed);
      ctx.Update(Zeros(pad));
      assert Zeros(hashed - from) + Zeros(pad) == Zeros(hashed + pad - from);
      hashed := hashed + pad;
    }
  }

  lemma AvailableAppend(content: bytes, start: nat, hashed: nat, want: nat)
    requires |Available(content, start, hashed)| == hashed
    ensures var buf := Available(content, start + hashed, want);
            Available(content, start, hashed + |buf|) == Available(content, start, hashed) + buf
  {
  }

  lemma AvailableNothing(content: bytes, start: nat)
    ensures Available(content, start, 0) == []
  {
  }

  /** A short read means that the file ends there. */
  lemma AvailableEnds(content: bytes, start: nat, hashed: nat, want: nat, len: nat)
    requires |Available(content, start, hashed)| == hashed && hashed + want <= len
    requires |Available(content, start + hashed, want)| < want
    ensures Available(content, start, len)
         == Available(content, start, hashed + |Available(content, start + hashed, want)|)
  {
  }

  lemma PaddedIs(content: bytes, off: nat, len: nat)
    ensures Padded(content, off, len) == Available(content, off, len) + Zeros(len - |Available(content, off, len)|)
  {
  }

  /** `firehose_program_raw_region` from the current position of the file. */
  method ProgramRawRegion(t: Target, file: QdlFile, p: int, start: bytes, num: nat, ss: nat, maxPayload: nat)
    requires 0 < ss <= maxPayload && file.burst > 0
    modifies t, file
    ensures t.flash == WriteSectors(old(t.flash), p, t.resolve(start), ss,
                                    Padded(file.content, old(file.pos), num * ss))
    ensures file.pos == old(file.pos) + |Available(file.content, old(file.pos), num * ss)|
  {
    hide WriteSectors, Padded, Available;
    t.Begin(p, start, ss);
    StreamOut(t, file, num, maxPayload, None, []);
  }

  /** The plain path of `firehose_program` for an image that is not sparse; a zip member is read from where it is. */
  method ProgramPlain(t: Target, file: QdlFile, e: Entry, num: nat, ss: nat, maxPayload: nat)
    requires 0 < ss <= maxPayload && file.burst > 0
    modifies t, file
    ensures t.flash == WriteSectors(old(t.flash), e.partition, t.resolve(e.startSector), ss,
                                    Padded(file.content, if file.kind == Posix then e.fileOffset * ss
                                           else old(file.pos),
                                           num * ss))
  {
    hide WriteSectors, Padded;
    t.Begin(e.partition, e.startSector, ss);
    var _ := file.Seek(e.fileOffset * ss);
    StreamOut(t, file, num, maxPayload, None, []);
  }

  // ----- The chunks of a region

  function ChunkMax(ss: nat): nat
    requires 0 < ss
  {
    SKIPBLOCK_CHUNK_BYTES / ss
  }

  /** Sectors in the chunk at `off`. */
  function ChunkSectors(num: nat, ss: nat, off: nat): nat
    requires 0 < ss && off <= num
  {
    Min(ChunkMax(ss), num - off)
  }

  /** The start expression of the chunk at `off`: verbatim for the first one. */
  function ChunkStart(e: Entry, off: nat): bytes {
    if off == 0 then e.startSector
    else Decimal((Strtoul(e.startSector, 0).0 + off) % Numerals.UINT64_RANGE)
  }

  function ChunkData(content: bytes, e: Entry, num: nat, ss: nat, off: nat): (r: bytes)
    requires 0 < ss && off <= num
    ensures |r| == ChunkSectors(num, ss, off) * ss
  {
    Padded(content, (e.fileOffset + off) % Numerals.UINT32_RANGE * ss, ChunkSectors(num, ss, off) * ss)
  }

  /** Flash once the chunks from `off` on have been brought up to date, each where it is addressed. */
  function WriteChunks(flash: Flash, resolve: bytes -> nat, content: bytes, e: Entry, num: nat, ss: nat,
                       off: nat): Flash
    requires 0 < ss <= SKIPBLOCK_CHUNK_BYTES && off <= num
    decreases num - off
  {
    if off >= num then flash
    else
      ChunkMaxPositive(ss);
      WriteChunks(WriteSectors(flash, e.partition, resolve(ChunkStart(e, off)), ss,
                               ChunkData(content, e, num, ss, off)),
                  resolve, content, e, num, ss, off + ChunkSectors(num, ss, off))
  }

  lemma ChunkMaxPositive(ss: nat)
    requires 0 < ss <= SKIPBLOCK_CHUNK_BYTES
    ensures ChunkMax(ss) > 0
  {
  }

  /** The device's digest of a region is that of `data`. */
  ghost predicate Matches(flash: Flash, p: int, start: nat, n: nat, ss: nat, data: bytes) {
    Covers(flash, p, start, n, ss) && Sha256(Region(flash, p, start, n, ss)) == Sha256(data)
  }

  /** Equal digests of `data` and a region mean equal contents. */
  ghost predicate MatchMeansEqual(flash: Flash, p: int, start: nat, n: nat, ss: nat, data: bytes) {
    Matches(flash, p, start, n, ss, data) ==> Region(flash, p, start, n, ss) == data
  }

  /** No chunk's data collides with different flash contents it is compared with. */
  ghost predicate NoChunkCollision(flash: Flash, resolve: bytes -> nat, content: bytes, e: Entry, num: nat, ss: nat,
                                   off: nat)
    requires 0 < ss <= SKIPBLOCK_CHUNK_BYTES && off <= num
    decreases num - off
  {
    if off >= num then true
    else
      ChunkMaxPositive(ss);
      var n, data, start := ChunkSectors(num, ss, off), ChunkData(content, e, num, ss, off),
          resolve(ChunkStart(e, off));
      && MatchMeansEqual(flash, e.partition, start, n, ss, data)
      && NoChunkCollision(WriteSectors(flash, e.partition, start, ss, data), resolve, content, e, num, ss, off + n)
  }

  /** A skipblock run: what it programs, and which of its digest requests the device answers. */
  datatype SkipRun = SkipRun(resolve: bytes -> nat, content: bytes, e: Entry, num: nat, ss: nat, replies: nat -> bool) {
    predicate Valid() { 0 < ss <= SKIPBLOCK_CHUNK_BYTES }

    function Start(off: nat): nat { resolve(ChunkStart(e, off)) }

    function Count(off: nat): (n: nat)
      requires Valid() && off <= num
      ensures off < num ==> 0 < n <= num - off
    {
      ChunkMaxPositive(ss);
      ChunkSectors(num, ss, off)
    }

    /** What the file gives for the chunk at `off` when it is at byte `at`. */
    function Data(off: nat, at: nat): (r: bytes)
      requires Valid() && off <= num
      ensures |r| == Count(off) * ss
    {
      Padded(content, at, Count(off) * ss)
    }

    /** Chunk `idx`, at `off`, stays as it is: the digest of what the file gives is the device's. */
    ghost predicate Kept(flash: Flash, off: nat, at: nat, idx: nat)
      requires Valid() && off <= num
    {
      replies(idx) && Matches(flash, e.partition, Start(off), Count(off), ss, Data(off, at))
    }

    function Rewritten(flash: Flash, off: nat, at: nat): Flash
      requires Valid() && off <= num
    {
      WriteSectors(flash, e.partition, Start(off), ss, Data(off, at + Count(off) * ss))
    }

    /**
     * Flash after the chunks of a zip member from `off` on: the file is never rewound, so a rewrite
     * takes what follows the chunk.
     */
    ghost function ZipChunks(flash: Flash, off: nat, at: nat, idx: nat): Flash
      requires Valid()
      decreases num - off
    {
      if off >= num then flash
      else if Kept(flash, off, at, idx) then ZipChunks(flash, off + Count(off), at + Count(off) * ss, idx + 1)
      else ZipChunks(Rewritten(flash, off, at), off + Count(off), at + Count(off) * ss + Count(off) * ss, idx + 1)
    }
  }

  /** What is left to do, once the chunks before `off` are dealt with. */
  ghost predicate Remains(kind: FileKind, z: SkipRun, before: Flash, flash: Flash, off: nat, at: nat, idx: nat)
    requires z.Valid() && off <= z.num
  {
    if kind == Posix then
      && NoChunkCollision(flash, z.resolve, z.content, z.e, z.num, z.ss, off)
      && WriteChunks(before, z.resolve, z.content, z.e, z.num, z.ss, 0)
         == WriteChunks(flash, z.resolve, z.content, z.e, z.num, z.ss, off)
    else z.ZipChunks(before, 0, 0, 0) == z.ZipChunks(flash, off, at, idx)
  }

  /** Flash after one chunk. */
  ghost predicate ChunkDone(kind: FileKind, z: SkipRun, flash: Flash, flash': Flash, off: nat, at: nat, idx: nat,
                            rewritten: bool)
    requires z.Valid() && off < z.num
  {
    if kind == Posix then
      flash' == WriteSectors(flash, z.e.partition, z.Start(off), z.ss, ChunkData(z.content, z.e, z.num, z.ss, off))
    else
      && (rewritten <==> !z.Kept(flash, off, at, idx))
      && flash' == if rewritten then z.Rewritten(flash, off, at) else flash
  }

  /** Where a zip member is after a chunk. */
  function PositionAfter(z: SkipRun, off: nat, at: nat, rewritten: bool): nat
    requires z.Valid() && off < z.num
  {
    at + z.Count(off) * z.ss + if rewritten then z.Count(off) * z.ss else 0
  }

  lemma RemainsAfter(kind: FileKind, z: SkipRun, before: Flash, flash: Flash, flash': Flash, off: nat, at: nat,
                     idx: nat,
                     rewritten: bool)
    requires z.Valid() && off < z.num && Remains(kind, z, before, flash, off, at, idx)
    requires ChunkDone(kind, z, flash, flash', off, at, idx, rewritten)
    ensures Remains(kind, z, before, flash', off + z.Count(off), PositionAfter(z, off, at, rewritten), idx + 1)
  {
    hide WriteSectors, ChunkData, MatchMeansEqual, SkipRun.Kept, SkipRun.Rewritten, ChunkStart;
  }

  lemma NothingRemains(kind: FileKind, z: SkipRun, before: Flash, flash: Flash, at: nat, idx: nat)
    requires z.Valid() && Remains(kind, z, before, flash, z.num, at, idx)
    ensures flash == if kind == Posix then WriteChunks(before, z.resolve, z.content, z.e, z.num, z.ss, 0)
                     else z.ZipChunks(before, 0, 0, 0)
  {
  }

  lemma NextOffset(z: SkipRun, off: nat)
    requires z.Valid() && off < z.num && z.num + ChunkMax(z.ss) <= Numerals.UINT32_RANGE
    ensures var next := (off + ChunkMax(z.ss)) % Numerals.UINT32_RANGE;
            off < next && Min(next, z.num) == off + z.Count(off)
  {
    ChunkMaxPositive(z.ss);
    hide ChunkMax;
    assert z.Count(off) == Min(ChunkMax(z.ss), z.num - off);
    assert off + ChunkMax(z.ss) < 0x1_0000_0000;
  }

  /**
   * `firehose_program_skipblock`. Every chunk of a host file ends up holding its data, whether
   * the device answered with a matching digest, with another one, or not at all (`replies`); a
   * zip member gives what is next in it, for the digest and again for the data.
   */
  method ProgramSkipblock(t: Target, file: QdlFile, e: Entry, num: nat, ss: nat, maxPayload: nat, replies: nat -> bool)
    returns (flashed: nat)
    requires 0 < ss <= maxPayload && ss <= SKIPBLOCK_CHUNK_BYTES && file.burst > 0
    requires num + ChunkMax(ss) <= Numerals.UINT32_RANGE
    requires file.kind == Posix ==> NoChunkCollision(t.flash, t.resolve, file.content, e, num, ss, 0)
    requires file.kind == ZipMember ==> file.pos == 0
    modifies t, file
    ensures t.flash == if file.kind == Posix then WriteChunks(old(t.flash), t.resolve, file.content, e, num, ss, 0)
                       else SkipRun(t.resolve, file.content, e, num, ss, replies).ZipChunks(old(t.flash), 0, 0, 0)
  {
    hide WriteSectors, ChunkData, ChunkDone, PositionAfter, NoChunkCollision, WriteChunks, SkipRun.ZipChunks,
        SkipRun.Count;
    var chunkMax := SKIPBLOCK_CHUNK_BYTES / ss;
    var z := SkipRun(t.resolve, file.content, e, num, ss, replies);
    flashed := 0;
    var idx := 0;
    var off: nat := 0;
    ghost var at: nat := 0;
    while off < num
      invariant Remains(file.kind, z, old(t.flash), t.flash, Min(off, num), at, idx)
      invariant file.kind == ZipMember ==> file.pos == Min(at, |file.content|)
      decreases num - off
    {
      hide Remains;
      RemainsSafe(file.kind, z, old(t.flash), t.flash, off, at, idx);
      ghost var flash := t.flash;
      var rewritten := ProgramChunk(t, file, z, maxPayload, off, at, idx);
      if rewritten {
        flashed := flashed + 1;
      }
      RemainsAfter(file.kind, z, old(t.flash), flash, t.flash, off, at, idx, rewritten);
      NextOffset(z, off);
      at := PositionAfter(z, off, at, rewritten);
      off := (off + chunkMax) % Numerals.UINT32_RANGE;
      idx := idx + 1;
    }
    NothingRemains(file.kind, z, old(t.flash), t.flash, at, idx);
  }

  lemma RemainsSafe(kind: FileKind, z: SkipRun, before: Flash, flash: Flash, off: nat, at: nat, idx: nat)
    requires z.Valid() && off < z.num && Remains(kind, z, before, flash, off, at, idx)
    ensures kind == Posix ==>
              MatchMeansEqual(flash, z.e.partition, z.Start(off), z.Count(off), z.ss,
                              ChunkData(z.content, z.e, z.num, z.ss, off))
  {
    hide WriteSectors, ChunkData, MatchMeansEqual, ChunkStart;
  }

  lemma {:induction false} FileEnd(content: bytes, at: nat, len: nat)
    ensures Padded(content, Min(at, |content|), len) == Padded(content, at, len)
    ensures Min(at, |content|) + |Available(content, Min(at, |content|), len)| == Min(at + len, |content|)
  {
  }

  /** What the file gives for the digest of a chunk. */
  function LocalData(kind: FileKind, z: SkipRun, off: nat, at: nat): (r: bytes)
    requires z.Valid() && off < z.num
    ensures |r| == z.Count(off) * z.ss
  {
    if kind == Posix then ChunkData(z.content, z.e, z.num, z.ss, off) else z.Data(off, at)
  }

  function ChunkFileOffset(z: SkipRun, off: nat): nat { (z.e.fileOffset + off) % Numerals.UINT32_RANGE * z.ss }

  /** Compare a chunk's local digest with the device's. */
  method CompareChunk(t: Target, file: QdlFile, z: SkipRun, maxPayload: nat, off: nat, ghost at: nat, idx: nat)
    returns (agrees: bool)
    requires z.Valid() && z.ss <= maxPayload && file.burst > 0 && off < z.num
    requires z.content == file.content && z.resolve == t.resolve
    requires file.kind == ZipMember ==> file.pos == Min(at, |file.content|)
    modifies file
    ensures agrees <==> z.replies(idx) && Matches(t.flash, z.e.partition, z.Start(off), z.Count(off), z.ss,
                                                  LocalData(file.kind, z, off, at))
    ensures file.kind == ZipMember ==> file.pos == Min(at + z.Count(off) * z.ss, |file.content|)
  {
    hide Padded, Sha256, Available, Strtoul, Decimal, Matches;
    var n := Min(SKIPBLOCK_CHUNK_BYTES / z.ss, z.num - off);
    FileEnd(file.content, at, n * z.ss);
    var localDigest := RegionLocalDigest(file, ChunkFileOffset(z, off), n * z.ss, maxPayload);
    var digest := t.GetSha256Digest(z.e.partition, ChunkStart(z.e, off), n, z.ss, z.replies(idx));
    MatchesIs(t.flash, z.e.partition, z.Start(off), n, z.ss, LocalData(file.kind, z, off, at));
    agrees := digest.Some? && digest.value == localDigest;
  }

  /**
   * One iteration of the skipblock loop: compare, and rewrite the chunk when it differs.
   * A zip member is not rewound for the rewrite, so what follows the chunk gets written.
   */
  method ProgramChunk(t: Target, file: QdlFile, z: SkipRun, maxPayload: nat, off: nat, ghost at: nat, idx: nat)
    returns (rewritten: bool)
    requires z.Valid() && z.ss <= maxPayload && file.burst > 0 && off < z.num
    requires z.content == file.content && z.resolve == t.resolve
    requires file.kind == ZipMember ==> file.pos == Min(at, |file.content|)
    requires file.kind == Posix ==>
               MatchMeansEqual(t.flash, z.e.partition, z.Start(off), z.Count(off), z.ss,
                               ChunkData(z.content, z.e, z.num, z.ss, off))
    modifies t, file
    ensures ChunkDone(file.kind, z, old(t.flash), t.flash, off, at, idx, rewritten)
    ensures file.kind == ZipMember ==> file.pos == Min(PositionAfter(z, off, at, rewritten), |file.content|)
    ensures !z.replies(idx) ==> rewritten
  {
    hide WriteSectors, Padded, Available, MatchMeansEqual, Matches, ChunkDone, ChunkStart, SkipRun.Count;
    ghost var local := LocalData(file.kind, z, off, at);
    var same := CompareChunk(t, file, z, maxPayload, off, at, idx);
    if same {
      ChunkKept(file.kind, z, t.flash, off, at, idx, local);
      return false;
    }
    var _ := file.Seek(ChunkFileOffset(z, off));
    var n := z.Count(off);
    FileEnd(file.content, at + n * z.ss, n * z.ss);
    ghost var data := Padded(file.content, file.pos, n * z.ss);
    CountIs(z, off);
    ProgramRawRegion(t, file, z.e.partition, ChunkStart(z.e, off), n, z.ss, maxPayload);
    ChunkRewritten(file.kind, z, old(t.flash), t.flash, off, at, idx, local, data);
    return true;
  }

  lemma CountIs(z: SkipRun, off: nat)
    requires z.Valid() && off < z.num
    ensures z.Count(off) == ChunkSectors(z.num, z.ss, off)
  {
  }

  lemma MatchesIs(flash: Flash, p: int, start: nat, n: nat, ss: nat, data: bytes)
    ensures Matches(flash, p, start, n, ss, data)
        <==> Covers(flash, p, start, n, ss) && Sha256(Region(flash, p, start, n, ss)) == Sha256(data)
  {
  }

  /** A chunk whose digest is the device's. */
  lemma ChunkKept(kind: FileKind, z: SkipRun, flash: Flash, off: nat, at: nat, idx: nat, local: bytes)
    requires z.Valid() && off < z.num && z.replies(idx)
    requires local == if kind == Posix then ChunkData(z.content, z.e, z.num, z.ss, off) else z.Data(off, at)
    requires Matches(flash, z.e.partition, z.Start(off), z.Count(off), z.ss, local)
    requires kind == Posix ==> MatchMeansEqual(flash, z.e.partition, z.Start(off), z.Count(off), z.ss, local)
    ensures ChunkDone(kind, z, flash, flash, off, at, idx, false)
  {
    hide WriteSectors, Padded, Sha256, ChunkStart;
    if kind == Posix {
      RewriteIsNoop(flash, z.e.partition, z.Start(off), z.Count(off), z.ss);
    }
  }

  /** A chunk whose digest is not the device's, or has not been told. */
  lemma ChunkRewritten(kind: FileKind, z: SkipRun, flash: Flash, flash': Flash, off: nat, at: nat, idx: nat,
                       local: bytes,
                       data: bytes)
    requires z.Valid() && off < z.num
    requires data == if kind == Posix then ChunkData(z.content, z.e, z.num, z.ss, off)
                     else z.Data(off, at + z.Count(off) * z.ss)
    requires kind == ZipMember ==>
               local == z.Data(off, at)
               && !(z.replies(idx) && Matches(flash, z.e.partition, z.Start(off), z.Count(off), z.ss, local))
    requires flash' == WriteSectors(flash, z.e.partition, z.Start(off), z.ss, data)
    ensures ChunkDone(kind, z, flash, flash', off, at, idx, true)
  {
    hide WriteSectors, Padded, Sha256, ChunkStart;
  }
}

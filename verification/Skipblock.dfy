/** When `--skipblock` leaves the same flash behind as plain programming of a host file. */
module Skipblock {
  import opened Bytes
  import opened Numerals
  import opened Flash
  import opened Files
  import opened Programming

  /** A programmer that understands decimal start sectors. */
  ghost predicate ReadsDecimals(resolve: bytes -> nat) {
    forall n :: 0 <= n < UINT64_RANGE ==> resolve(Decimal(n)) == n
  }

  /** What the source's types hold, and a programmer that understands decimal start sectors. */
  ghost predicate Typed(z: SkipRun) {
    && z.Valid() && z.num < 0x1_0000_0000 && z.e.fileOffset < 0x1_0000_0000
    && ReadsDecimals(z.resolve)
  }

  /** The number that strtoull reads from the start sector. */
  function Base(z: SkipRun): (r: nat)
    ensures r < UINT64_RANGE
  {
    Strtoul(z.e.startSector, 0).0
  }

  /** The image data that plain programming stores: a zip member is read from its start, whatever the file offset. */
  function PlainData(kind: FileKind, z: SkipRun): (r: bytes)
    ensures |r| == z.num * z.ss
  {
    Padded(z.content, if kind == Posix then z.e.fileOffset * z.ss else 0, z.num * z.ss)
  }

  /** What plain programming leaves behind. */
  function PlainResult(kind: FileKind, z: SkipRun, flash: Flash): Flash
    requires z.Valid()
  {
    WriteSectors(flash, z.e.partition, z.Start(0), z.ss, PlainData(kind, z))
  }

  /** What skipblock leaves behind. */
  ghost function SkipblockResult(kind: FileKind, z: SkipRun, flash: Flash): Flash
    requires z.Valid()
  {
    if kind == Posix then WriteChunks(flash, z.resolve, z.content, z.e, z.num, z.ss, 0) else z.ZipChunks(flash, 0, 0, 0)
  }

  // ----- Data in parts, one for each chunk

  /** One part for each chunk from `off` on. */
  predicate Shaped(z: SkipRun, off: nat, parts: seq<bytes>)
    requires z.Valid()
    decreases |parts|
  {
    if off >= z.num then parts == []
    else |parts| > 0 && |parts[0]| == z.Count(off) * z.ss && Shaped(z, off + z.Count(off), parts[1..])
  }

  /** Every part where its chunk is addressed. */
  function WriteParts(z: SkipRun, flash: Flash, off: nat, parts: seq<bytes>): Flash
    requires z.Valid() && Shaped(z, off, parts)
    decreases |parts|
  {
    if off >= z.num then flash
    else WriteParts(z, WriteSectors(flash, z.e.partition, z.Start(off), z.ss, parts[0]), off + z.Count(off), parts[1..])
  }

  function Joined(parts: seq<bytes>): bytes {
    if |parts| == 0 then [] else parts[0] + Joined(parts[1..])
  }

  lemma {:induction false} JoinedLength(z: SkipRun, off: nat, parts: seq<bytes>)
    requires z.Valid() && off <= z.num && Shaped(z, off, parts)
    ensures |Joined(parts)| == (z.num - off) * z.ss
    decreases |parts|
  {
    hide SkipRun.Count;
    if off < z.num {
      JoinedLength(z, off + z.Count(off), parts[1..]);
      Distribute(z.Count(off), z.num - off - z.Count(off), z.ss);
    }
  }

  /** The part of one chunk and those of the chunks behind it. */
  function OnTop(z: SkipRun, off: nat, part: bytes, rest: seq<bytes>): (r: seq<bytes>)
    requires z.Valid() && off < z.num && |part| == z.Count(off) * z.ss && Shaped(z, off + z.Count(off), rest)
    ensures Shaped(z, off, r) && r == [part] + rest && r[1..] == rest
  {
    hide SkipRun.Count;
    assert ([part] + rest)[1..] == rest;
    [part] + rest
  }

  /** What the chunks of a host file are given. */
  function HostParts(z: SkipRun, off: nat): (r: seq<bytes>)
    requires z.Valid()
    ensures Shaped(z, off, r)
    decreases z.num - off
  {
    hide OnTop, SkipRun.Count;
    if off >= z.num then []
    else OnTop(z, off, HostPart(z, off), HostParts(z, off + z.Count(off)))
  }

  function HostPart(z: SkipRun, off: nat): (r: bytes)
    requires z.Valid() && off < z.num
    ensures r == ChunkData(z.content, z.e, z.num, z.ss, off) && |r| == z.Count(off) * z.ss
  {
    ChunkData(z.content, z.e, z.num, z.ss, off)
  }

  lemma {:induction false} ChunksAreParts(z: SkipRun, flash: Flash, off: nat)
    requires z.Valid() && off <= z.num
    ensures WriteChunks(flash, z.resolve, z.content, z.e, z.num, z.ss, off)
         == WriteParts(z, flash, off, HostParts(z, off))
    decreases z.num - off
  {
    hide WriteSectors, ChunkData, ChunkStart;
    if off < z.num {
      var next := WriteSectors(flash, z.e.partition, z.Start(off), z.ss, ChunkData(z.content, z.e, z.num, z.ss, off));
      ChunksAreParts(z, next, off + z.Count(off));
      assert HostParts(z, off)[1..] == HostParts(z, off + z.Count(off));
    }
  }

  // ----- Where the chunks go

  /** The chunks from `off` on are addressed where the region has them. */
  predicate InPlace(z: SkipRun, off: nat)
    requires z.Valid()
    decreases z.num - off
  {
    off < z.num ==> z.Start(off) == z.Start(0) + off && InPlace(z, off + z.Count(off))
  }

  /** Parts in place are the region written at once. */
  lemma {:induction false} PartsInPlace(z: SkipRun, flash: Flash, off: nat, parts: seq<bytes>)
    requires z.Valid() && off <= z.num && Shaped(z, off, parts) && InPlace(z, off)
    ensures WriteParts(z, flash, off, parts)
         == WriteSectors(flash, z.e.partition, z.Start(0) + off, z.ss, Joined(parts))
    decreases |parts|
  {
    hide SkipRun.Count, SkipRun.Start, WriteSectors;
    if off < z.num {
      var n := z.Count(off);
      PartsInPlace(z, WriteSectors(flash, z.e.partition, z.Start(off), z.ss, parts[0]), off + n, parts[1..]);
      WriteSectorsAppend(flash, z.e.partition, z.Start(off), z.ss, parts[0], n, Joined(parts[1..]));
    } else {
      NothingWritten(flash, z.e.partition, z.Start(0) + off, z.ss);
    }
  }

  lemma NothingWritten(flash: Flash, p: int, start: nat, ss: nat)
    requires 0 < ss
    ensures WriteSectors(flash, p, start, ss, []) == flash
  {
  }

  /** The sectors that the chunks from `off` on are written to. */
  predicate Touched(z: SkipRun, off: nat, a: Addr)
    requires z.Valid()
    decreases z.num - off
  {
    && off < z.num
    && ((a.partition == z.e.partition && z.Start(off) <= a.sector < z.Start(off) + z.Count(off))
        || Touched(z, off + z.Count(off), a))
  }

  lemma WriteAdds(flash: Flash, p: int, start: nat, ss: nat, data: bytes, num: nat, a: Addr)
    requires 0 < ss && |data| == num * ss
    ensures a in WriteSectors(flash, p, start, ss, data)
        <==> a in flash || (a.partition == p && start <= a.sector < start + num)
  {
    hide WriteSectors;
    if a.partition == p && start <= a.sector < start + num {
      WriteSectorsInside(flash, p, start, ss, data, num, a.sector - start);
    } else {
      WriteSectorsOutside(flash, p, start, ss, data, num, a);
    }
  }

  lemma {:induction false} PartsTouch(z: SkipRun, flash: Flash, off: nat, parts: seq<bytes>, a: Addr)
    requires z.Valid() && Shaped(z, off, parts)
    ensures a in WriteParts(z, flash, off, parts) <==> a in flash || Touched(z, off, a)
    decreases |parts|
  {
    hide SkipRun.Count, SkipRun.Start, WriteSectors;
    if off < z.num {
      WriteAdds(flash, z.e.partition, z.Start(off), z.ss, parts[0], z.Count(off), a);
      PartsTouch(z, WriteSectors(flash, z.e.partition, z.Start(off), z.ss, parts[0]), off + z.Count(off), parts[1..],
                 a);
    }
  }

  /** The offset of the last chunk. */
  function LastOffset(z: SkipRun, off: nat): (r: nat)
    requires z.Valid() && off < z.num
    ensures off <= r < z.num
    decreases z.num - off
  {
    if off + z.Count(off) >= z.num then off else LastOffset(z, off + z.Count(off))
  }

  /**
   * One chunk, or a start sector that means what strtoull makes of it, with chunk addresses
   * that fit 64 bits.
   */
  predicate Addressable(z: SkipRun)
    requires z.Valid()
  {
    z.num <= ChunkMax(z.ss) || (z.Start(0) == Base(z) && Base(z) + LastOffset(z, 0) < UINT64_RANGE)
  }

  /** A chunk but the first is addressed by a decimal number, modulo 2^64. */
  lemma LaterStart(z: SkipRun, off: nat)
    requires Typed(z) && 0 < off < z.num
    ensures z.Start(off) == if Base(z) + off < UINT64_RANGE then Base(z) + off else Base(z) + off - UINT64_RANGE
  {
    hide Strtoul, Decimal;
    assert Decimal((Base(z) + off) % UINT64_RANGE) == ChunkStart(z.e, off);
  }

  lemma {:induction false} AddressedInPlace(z: SkipRun, off: nat)
    requires Typed(z) && z.Start(0) == Base(z)
    requires off < z.num ==> Base(z) + LastOffset(z, off) < UINT64_RANGE
    ensures InPlace(z, off)
    decreases z.num - off
  {
    hide SkipRun.Count, SkipRun.Start, ReadsDecimals, Base;
    if off < z.num {
      if off > 0 { LaterStart(z, off); }
      AddressedInPlace(z, off + z.Count(off));
    }
  }

  lemma OneChunkInPlace(z: SkipRun)
    requires z.Valid() && z.num <= ChunkMax(z.ss)
    ensures InPlace(z, 0)
  {
    if z.num > 0 { assert z.Count(0) == z.num; }
  }

  /** Chunks but the first go where the number says, or 2^64 sectors before that. */
  lemma {:induction false} TouchedBounds(z: SkipRun, off: nat, a: Addr)
    requires Typed(z) && 0 < off && Touched(z, off, a)
    ensures a.partition == z.e.partition
    ensures Base(z) + off <= a.sector < Base(z) + z.num || Base(z) + off <= a.sector + UINT64_RANGE < Base(z) + z.num
    ensures Base(z) + LastOffset(z, off) < UINT64_RANGE ==> Base(z) + off <= a.sector < Base(z) + z.num
    decreases z.num - off
  {
    hide SkipRun.Count, SkipRun.Start, ReadsDecimals, Base;
    LaterStart(z, off);
    if Touched(z, off + z.Count(off), a) { TouchedBounds(z, off + z.Count(off), a); }
  }

  lemma {:induction false} LastTouched(z: SkipRun, off: nat)
    requires z.Valid() && off < z.num
    ensures Touched(z, off, Addr(z.e.partition, z.Start(LastOffset(z, off))))
    decreases z.num - off
  {
    hide SkipRun.Start;
    if off + z.Count(off) < z.num { LastTouched(z, off + z.Count(off)); }
  }

  /** Whether a sector belongs to the region. */
  predicate InRegion(z: SkipRun, a: Addr) {
    a.partition == z.e.partition && z.Start(0) <= a.sector < z.Start(0) + z.num
  }

  /** Chunks addressed elsewhere miss a sector of the region, or reach one outside of it. */
  lemma Astray(z: SkipRun) returns (a: Addr)
    requires Typed(z) && !Addressable(z)
    ensures Touched(z, 0, a) <==> !InRegion(z, a)
  {
    hide SkipRun.Start, ReadsDecimals, Base;
    var r, base, cm, last := z.Start(0), Base(z), ChunkMax(z.ss), LastOffset(z, 0);
    assert z.Count(0) == cm && 0 < cm < z.num && LastOffset(z, cm) == last >= cm by { FirstChunk(z); }
    assert base < UINT64_RANGE && z.num < UINT32_RANGE;
    if base + last >= UINT64_RANGE {
      a := Addr(z.e.partition, z.Start(last));
      LastTouched(z, 0);
      LaterStart(z, last);
      if InRegion(z, a) {
        a := Addr(z.e.partition, r + z.num - 1);
        if Touched(z, cm, a) { TouchedBounds(z, cm, a); }
      }
    } else {
      a := Addr(z.e.partition, if r < base then r + cm else r + z.num - 1);
      if Touched(z, cm, a) { TouchedBounds(z, cm, a); }
    }
  }

  lemma FirstChunk(z: SkipRun)
    requires z.Valid() && z.num > ChunkMax(z.ss)
    ensures z.Count(0) == ChunkMax(z.ss) && 0 < ChunkMax(z.ss)
    ensures LastOffset(z, ChunkMax(z.ss)) == LastOffset(z, 0) >= ChunkMax(z.ss)
  {
    ChunkMaxPositive(z.ss);
  }

  /** Equal flash from equal flash means equal data. */
  lemma WriteTells(flash: Flash, p: int, start: nat, ss: nat, a: bytes, b: bytes, num: nat)
    requires 0 < ss && |a| == num * ss && |b| == num * ss
    ensures WriteSectors(flash, p, start, ss, a) == WriteSectors(flash, p, start, ss, b) <==> a == b
  {
    hide WriteSectors;
    if WriteSectors(flash, p, start, ss, a) == WriteSectors(flash, p, start, ss, b) {
      forall k: nat | k < num
        ensures 0 <= k * ss <= k * ss + ss <= |a| && a[k * ss..k * ss + ss] == b[k * ss..k * ss + ss]
      {
        WriteSectorsInside(flash, p, start, ss, a, num, k);
        WriteSectorsInside(flash, p, start, ss, b, num, k);
      }
      SameSectors(a, b, ss, num);
    }
  }

  lemma {:induction false} SameSectors(a: bytes, b: bytes, ss: nat, num: nat)
    requires 0 < ss && |a| == num * ss && |b| == num * ss
    requires forall k: nat :: k < num ==>
               0 <= k * ss <= k * ss + ss <= |a| && a[k * ss..k * ss + ss] == b[k * ss..k * ss + ss]
    ensures a == b
  {
    if num > 0 {
      var m := (num - 1) * ss;
      assert num * ss == m + ss;
      forall k: nat | k < num - 1
        ensures 0 <= k * ss <= k * ss + ss <= m && a[..m][k * ss..k * ss + ss] == b[..m][k * ss..k * ss + ss]
      {
        Below(k, num - 1, ss);
        assert a[..m][k * ss..k * ss + ss] == a[k * ss..k * ss + ss];
        assert b[..m][k * ss..k * ss + ss] == b[k * ss..k * ss + ss];
      }
      SameSectors(a[..m], b[..m], ss, num - 1);
      assert a == a[..m] + a[m..m + ss] && b == b[..m] + b[m..m + ss];
    }
  }

  lemma Below(k: nat, n: nat, ss: nat)
    requires k < n
    ensures 0 <= k * ss <= k * ss + ss <= n * ss
  {
    Distribute(k + 1, n - k - 1, ss);
    Distribute(k, 1, ss);
  }

  /** Parts written in or out of place leave on blank flash what plain data would exactly when both are right. */
  lemma PartsAgreeIff(z: SkipRun, parts: seq<bytes>, data: bytes)
    requires Typed(z) && Shaped(z, 0, parts) && |data| == z.num * z.ss
    ensures WriteParts(z, map[], 0, parts) == WriteSectors(map[], z.e.partition, z.Start(0), z.ss, data)
        <==> Addressable(z) && Joined(parts) == data
  {
    hide SkipRun.Start, WriteSectors, Addressable, ReadsDecimals, Base, WriteParts, Joined, Shaped, Touched;
    if Addressable(z) {
      PartsAgree(z, map[], parts, data);
    } else {
      var a := Astray(z);
      PartsTouch(z, map[], 0, parts, a);
      WriteAdds(map[], z.e.partition, z.Start(0), z.ss, data, z.num, a);
    }
  }

  lemma PartsAgree(z: SkipRun, flash: Flash, parts: seq<bytes>, data: bytes)
    requires Typed(z) && Shaped(z, 0, parts) && |data| == z.num * z.ss && Addressable(z)
    ensures WriteParts(z, flash, 0, parts) == WriteSectors(flash, z.e.partition, z.Start(0), z.ss, data)
        <==> Joined(parts) == data
  {
    hide SkipRun.Start, WriteSectors, ReadsDecimals, Base, WriteParts, Joined, Shaped;
    AddressableInPlace(z);
    PartsInPlace(z, flash, 0, parts);
    JoinedLength(z, 0, parts);
    WriteTells(flash, z.e.partition, z.Start(0), z.ss, Joined(parts), data, z.num);
  }

  lemma AddressableInPlace(z: SkipRun)
    requires Typed(z) && Addressable(z)
    ensures InPlace(z, 0)
  {
    hide SkipRun.Start, ReadsDecimals, Base;
    if z.num <= ChunkMax(z.ss) { OneChunkInPlace(z); } else { AddressedInPlace(z, 0); }
  }

  // ----- Host files

  /** Every chunk finds its data in the file, although its 32-bit sector number in the file may have wrapped. */
  predicate SameData(z: SkipRun)
    requires z.Valid()
  {
    Joined(HostParts(z, 0)) == PlainData(Posix, z)
  }

  /**
   * Skipblock refines plain programming on every flash exactly when the region is a single
   * chunk or its start sector is the number strtoull reads from it, and every chunk finds its
   * data in the file.
   */
  lemma SkipblockRefinesPlain(z: SkipRun)
    requires Typed(z)
    ensures (forall flash :: SkipblockResult(Posix, z, flash) == PlainResult(Posix, z, flash))
        <==> Addressable(z) && SameData(z)
  {
    hide WriteSectors, WriteChunks, SkipRun.Start, HostParts, Shaped, WriteParts, Joined, PlainData, ReadsDecimals,
        Base, Addressable;
    if Addressable(z) && SameData(z) {
      forall flash
        ensures SkipblockResult(Posix, z, flash) == PlainResult(Posix, z, flash)
      {
        ChunksAreParts(z, flash, 0);
        PartsAgree(z, flash, HostParts(z, 0), PlainData(Posix, z));
      }
    } else {
      ChunksAreParts(z, map[], 0);
      PartsAgreeIff(z, HostParts(z, 0), PlainData(Posix, z));
      assert SkipblockResult(Posix, z, map[]) != PlainResult(Posix, z, map[]);
    }
  }

  /**
   * A symbolic start sector, as image tools write it for the backup table at the end of a disk, in
   * a region of two chunks.
   */
  lemma SymbolicStartFails(z: SkipRun)
    requires Typed(z) && z.num > ChunkMax(z.ss)
    requires z.e.startSector == Text("NUM_DISK_SECTORS-33.") && z.Start(0) > 0
    ensures SkipblockResult(Posix, z, map[]) != PlainResult(Posix, z, map[])
  {
    hide WriteSectors, WriteChunks, SkipRun.Start, HostParts, Shaped, WriteParts, Joined, PlainData, ReadsDecimals,
        Base;
    assert Base(z) == 0 by { SymbolIsBase(z); }
    ChunksAreParts(z, map[], 0);
    PartsAgreeIff(z, HostParts(z, 0), PlainData(Posix, z));
  }

  lemma SymbolIsBase(z: SkipRun)
    requires z.e.startSector == Text("NUM_DISK_SECTORS-33.")
    ensures Base(z) == 0
  {
    hide Strtoul;
    SymbolIsZero(z.e.startSector);
  }

  lemma SymbolIsZero(s: bytes)
    requires s == Text("NUM_DISK_SECTORS-33.")
    ensures Strtoul(s, 0).0 == 0
  {
    assert s[0] == 78;
  }

  /** With no wrap in the 32-bit sector number, every chunk finds its data. */
  lemma {:induction false} HostPartsJoin(z: SkipRun, off: nat)
    requires z.Valid() && off <= z.num && (off < z.num ==> z.e.fileOffset + LastOffset(z, off) < UINT32_RANGE)
    ensures Joined(HostParts(z, off)) == Padded(z.content, (z.e.fileOffset + off) * z.ss, (z.num - off) * z.ss)
    decreases z.num - off
  {
    hide Padded, ChunkData, SkipRun.Count;
    if off < z.num {
      var n := z.Count(off);
      HostPartsJoin(z, off + n);
      assert HostParts(z, off)[1..] == HostParts(z, off + n);
      PartInPlace(z, off);
      RegionSplits(z.content, z.e.fileOffset + off, n, z.num - off - n, z.ss);
    }
  }

  lemma PartInPlace(z: SkipRun, off: nat)
    requires z.Valid() && off < z.num && z.e.fileOffset + off < UINT32_RANGE
    ensures ChunkData(z.content, z.e, z.num, z.ss, off)
         == Padded(z.content, (z.e.fileOffset + off) * z.ss, z.Count(off) * z.ss)
  {
    hide Padded;
  }

  /** The data of `n` sectors, and of `m` more behind them. */
  lemma RegionSplits(content: bytes, at: nat, n: nat, m: nat, ss: nat)
    ensures Padded(content, at * ss, (n + m) * ss)
         == Padded(content, at * ss, n * ss) + Padded(content, (at + n) * ss, m * ss)
  {
    hide Padded;
    Distribute(n, m, ss);
    Distribute(at, n, ss);
    PaddedSplits(content, at * ss, n * ss, m * ss);
  }

  /**
   * Every file of the region's size has its data found exactly when the sector number of the last
   * chunk in it fits 32 bits.
   */
  lemma FileOffsetIff(z: SkipRun)
    requires Typed(z) && 0 < z.num
    ensures (forall content: bytes | |content| == z.num * z.ss :: SameData(z.(content := content)))
        <==> z.e.fileOffset + LastOffset(z, 0) < UINT32_RANGE
  {
    hide HostParts, Joined, PlainData, ReadsDecimals, Base;
    if z.e.fileOffset + LastOffset(z, 0) < UINT32_RANGE {
      forall content: bytes | |content| == z.num * z.ss
        ensures SameData(z.(content := content))
      {
        var y := z.(content := content);
        SameLast(z, y, 0);
        HostPartsJoin(y, 0);
        assert PlainData(Posix, y) == Padded(y.content, (y.e.fileOffset + 0) * y.ss, y.num * y.ss) by { PlainIs(y); }
      }
    } else {
      var content := WrapWitness(z);
    }
  }

  lemma PlainIs(z: SkipRun)
    ensures PlainData(Posix, z) == Padded(z.content, z.e.fileOffset * z.ss, z.num * z.ss)
  {
  }

  lemma {:induction false} SameLast(z: SkipRun, y: SkipRun, off: nat)
    requires z.Valid() && y == z.(content := y.content, replies := y.replies) && off < z.num
    ensures LastOffset(y, off) == LastOffset(z, off)
    decreases z.num - off
  {
    if off + z.Count(off) < z.num { SameLast(z, y, off + z.Count(off)); }
  }

  /** A file whose last chunk is looked for elsewhere in it. */
  lemma WrapWitness(z: SkipRun) returns (content: bytes)
    requires Typed(z) && 0 < z.num && z.e.fileOffset + LastOffset(z, 0) >= UINT32_RANGE
    ensures |content| == z.num * z.ss && !SameData(z.(content := content))
  {
    hide ReadsDecimals, Base;
    var last := LastOffset(z, 0);
    var w := z.e.fileOffset + last - UINT32_RANGE;
    assert w < last && z.e.fileOffset < UINT32_RANGE && z.num < UINT32_RANGE;
    Below(w, z.num, z.ss);
    content := Zeros(w * z.ss) + [1] + Zeros(z.num * z.ss - w * z.ss - 1);
    var y := z.(content := content);
    SameLast(z, y, 0);
    if SameData(y) {
      LastPart(y, 0, w);
      LastByte(y, last);
    }
  }

  /** In place, the last chunk's first byte is behind the end of the file. */
  lemma LastByte(z: SkipRun, last: nat)
    requires last < z.num <= z.e.fileOffset + last && |z.content| == z.num * z.ss && 0 < z.ss
    ensures 0 <= last * z.ss - 0 * z.ss < z.num * z.ss && PlainData(Posix, z)[last * z.ss - 0 * z.ss] == 0
  {
    hide Padded;
    Below(last, z.num, z.ss);
    Distribute(z.e.fileOffset, last, z.ss);
    Beyond(z.num, z.e.fileOffset + last, z.ss);
    PaddedAt(z.content, z.e.fileOffset * z.ss, z.num * z.ss, last * z.ss);
  }

  lemma Beyond(a: nat, b: nat, ss: nat)
    requires a <= b
    ensures a * ss <= b * ss
  {
    Distribute(a, b - a, ss);
  }

  /** The last chunk's first byte comes from the wrapped place. */
  lemma {:induction false} LastPart(z: SkipRun, off: nat, w: nat)
    requires z.Valid() && off < z.num && w * z.ss < |z.content|
    requires z.e.fileOffset < UINT32_RANGE && z.num < UINT32_RANGE
    requires w + UINT32_RANGE == z.e.fileOffset + LastOffset(z, off)
    ensures var i := LastOffset(z, off) * z.ss - off * z.ss;
            0 <= i < |Joined(HostParts(z, off))| && Joined(HostParts(z, off))[i] == z.content[w * z.ss]
    decreases z.num - off
  {
    hide Padded;
    var n := z.Count(off);
    var parts := HostParts(z, off);
    assert parts[1..] == HostParts(z, off + n);
    Below(0, n, z.ss);
    if off + n >= z.num {
      PaddedAt(z.content, w * z.ss, n * z.ss, 0);
    } else {
      LastPart(z, off + n, w);
      Distribute(off, n, z.ss);
    }
  }

  // ----- The end of the loop

  /** The 32-bit offset of chunk `k`. */
  function OffsetOf(k: nat, ss: nat): nat
    requires 0 < ss
  {
    if k == 0 then 0 else (OffsetOf(k - 1, ss) + ChunkMax(ss)) % UINT32_RANGE
  }

  /** The largest power of two that divides a number. */
  function TwoPart(n: nat): (r: nat)
    requires 0 < n
    ensures 0 < r <= n
  {
    if n % 2 == 1 then 1 else 2 * TwoPart(n / 2)
  }

  function Power2(e: nat): (r: nat)
    ensures 0 < r
  {
    if e == 0 then 1 else 2 * Power2(e - 1)
  }

  /**
   * The loop over the chunks ends exactly when the region leaves room for the largest power of
   * two in a chunk's sectors. Where the 32-bit offset wraps, the loop goes through the region
   * again, at other offsets, until it has come round.
   */
  lemma LoopEndsIff(num: nat, ss: nat)
    requires 0 < ss <= SKIPBLOCK_CHUNK_BYTES
    ensures ChunkMax(ss) > 0
    ensures (exists k: nat :: OffsetOf(k, ss) >= num) <==> num + TwoPart(ChunkMax(ss)) <= 0x1_0000_0000
  {
    ChunkMaxPositive(ss);
    var cm := ChunkMax(ss);
    hide ChunkMax;
    var a, m := OddRest(cm);
    ExponentBound(a, 32, cm);
    var g, rest := Power2(a), Power2(32 - a);
    assert g * rest == 0x1_0000_0000 by { PowersMultiply(a, 32 - a); Power32(); }
    forall k: nat
      ensures OffsetOf(k, ss) + g <= 0x1_0000_0000
    {
      OffsetStays(k, ss, g, m, rest);
    }
    var k, q := Solution(m, rest - 1, 32 - a);
    OffsetReached(k, ss, g, m, rest, q);
  }

  /** For sector sizes that divide 2^29 a chunk's sectors are a power of two, and the offset must not wrap at all. */
  lemma PowerOfTwoChunks(ss: nat, e: nat)
    requires e <= 29 && ss == Power2(e)
    ensures 0 < ss <= SKIPBLOCK_CHUNK_BYTES && ChunkMax(ss) > 0 && TwoPart(ChunkMax(ss)) == ChunkMax(ss)
  {
    assert Power2(e) * Power2(29 - e) == 0x2000_0000 by { PowersMultiply(e, 29 - e); Power29(); }
    AtLeast(Power2(29 - e), ss);
    ChunkMaxOf(ss, Power2(29 - e));
    hide ChunkMax;
    PowerIsTwoPart(29 - e);
  }

  lemma ChunkMaxOf(ss: nat, n: nat)
    requires 0 < ss && ss * n == 0x2000_0000
    ensures ChunkMax(ss) == n
  {
    assert n * ss == 0x2000_0000;
    DivideExactly(n, ss);
  }

  lemma {:induction false} PowerIsTwoPart(e: nat)
    ensures TwoPart(Power2(e)) == Power2(e)
  {
    if e > 0 { PowerIsTwoPart(e - 1); }
  }

  lemma Power29()
    ensures Power2(29) == 0x2000_0000
  {
    assert Power2(10) == 0x400;
    assert Power2(20) == 0x10_0000;
  }

  lemma Power32()
    ensures Power2(32) == 0x1_0000_0000
  {
    Power29();
  }

  lemma {:induction false} PowersMultiply(a: nat, b: nat)
    ensures Power2(a) * Power2(b) == Power2(a + b)
  {
    if a > 0 {
      PowersMultiply(a - 1, b);
      assert Power2(a) * Power2(b) == 2 * (Power2(a - 1) * Power2(b));
    }
  }

  lemma {:induction false} OddRest(n: nat) returns (a: nat, m: nat)
    requires 0 < n
    ensures TwoPart(n) == Power2(a) && n == Power2(a) * m && m % 2 == 1
  {
    if n % 2 == 1 {
      a, m := 0, n;
    } else {
      var b;
      b, m := OddRest(n / 2);
      a := b + 1;
      assert n == 2 * (Power2(b) * m);
      assert Power2(a) * m == 2 * (Power2(b) * m);
    }
  }

  lemma {:induction false} ExponentBound(a: nat, bound: nat, n: nat)
    requires Power2(a) <= n < 0x1_0000_0000 && bound == 32
    ensures a < 32
  {
    if a >= 32 { BigPower(a); }
  }

  lemma BigPower(a: nat)
    requires a >= 32
    ensures Power2(a) >= 0x1_0000_0000
  {
    PowersMultiply(a - 32, 32);
    Power32();
    AtLeast(Power2(a - 32), 0x1_0000_0000);
  }

  /** An odd number has a multiple that is `t` modulo 2^e. */
  lemma {:induction false} Solution(m: nat, t: nat, e: nat) returns (k: nat, q: int)
    requires m % 2 == 1
    ensures k * m == t + q * Power2(e)
  {
    if e == 0 {
      k, q := 0, -(t as int);
    } else {
      var p := Power2(e - 1);
      var r;
      k, r := Solution(m, t, e - 1);
      if r % 2 == 0 {
        q := r / 2;
        EvenStep(k, m, t, r, q, p);
      } else {
        q := (r + m) / 2;
        OddStep(k, m, t, r, q, p);
        k := k + p;
      }
    }
  }

  lemma EvenStep(k: int, m: int, t: int, r: int, q: int, p: int)
    requires k * m == t + r * p && r == 2 * q
    ensures k * m == t + q * (2 * p)
  {
    assert r * p == q * (2 * p);
  }

  lemma OddStep(k: int, m: int, t: int, r: int, q: int, p: int)
    requires k * m == t + r * p && r + m == 2 * q
    ensures (k + p) * m == t + q * (2 * p)
  {
    assert (k + p) * m == k * m + p * m;
    assert (r + m) * p == r * p + m * p;
    assert (r + m) * p == q * (2 * p);
  }

  lemma {:induction false} OffsetIs(k: nat, ss: nat) returns (j: nat)
    requires 0 < ss
    ensures OffsetOf(k, ss) == k * ChunkMax(ss) - j * 0x1_0000_0000
    ensures OffsetOf(k, ss) < 0x1_0000_0000
  {
    hide ChunkMax;
    if k == 0 {
      j := 0;
    } else {
      var i := OffsetIs(k - 1, ss);
      var next := OffsetOf(k - 1, ss) + ChunkMax(ss);
      j := i + next / 0x1_0000_0000;
      assert k * ChunkMax(ss) == (k - 1) * ChunkMax(ss) + ChunkMax(ss);
    }
  }

  lemma OffsetStays(k: nat, ss: nat, g: nat, m: nat, rest: nat)
    requires 0 < ss && 0 < g && ChunkMax(ss) == g * m && g * rest == 0x1_0000_0000
    ensures OffsetOf(k, ss) + g <= 0x1_0000_0000
  {
    hide ChunkMax;
    var j := OffsetIs(k, ss);
    var c := k * m - j * rest;
    assert OffsetOf(k, ss) == g * c by { Factored(k, m, j, rest, g); }
    if c >= rest { AtLeastTimes(g, rest, c); }
    AtLeastTimes(g, c + 1, rest);
    assert g * (c + 1) == g * c + g;
  }

  lemma Factored(k: int, m: int, j: int, rest: int, g: int)
    ensures k * (g * m) - j * (g * rest) == g * (k * m - j * rest)
  {
  }

  lemma AtLeastTimes(g: nat, a: int, b: int)
    ensures a <= b ==> g * a <= g * b
  {
    if a <= b { assert g * b == g * a + g * (b - a); }
  }

  lemma OffsetReached(k: nat, ss: nat, g: nat, m: nat, rest: nat, q: int)
    requires 0 < ss && 0 < g && ChunkMax(ss) == g * m && g * rest == 0x1_0000_0000
    requires k * m == rest - 1 + q * rest
    ensures OffsetOf(k, ss) == 0x1_0000_0000 - g
  {
    hide ChunkMax;
    var j := OffsetIs(k, ss);
    Factored(k, m, j, rest, g);
    var d := q - j;
    assert k * m - j * rest == rest - 1 + d * rest by { Difference(q, j, rest); }
    LastMultiple(OffsetOf(k, ss), g, rest, d);
  }

  lemma Difference(q: int, j: int, rest: int)
    ensures q * rest - j * rest == (q - j) * rest
  {
  }

  lemma LastMultiple(o: nat, g: nat, rest: nat, d: int)
    requires o == g * (rest - 1 + d * rest) && g * rest == 0x1_0000_0000 && 0 < g && o < 0x1_0000_0000
    ensures o == 0x1_0000_0000 - g
  {
    assert g * (rest - 1 + d * rest) == g * rest - g + d * (g * rest);
    assert 0 < rest;
    AtLeastTimes(g, 1, rest);
  }
}

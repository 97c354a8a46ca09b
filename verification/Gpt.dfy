/** Partition tables: reading the GPT of every physical partition, and finding a partition by name. */
module Gpt {
  import opened Bytes
  import opened Options
  import opened Utf16

  const HEADER_LBA := 1
  const SIGNATURE := "EFI PART"
  const ENTRY_SIZE := 128
  const NAME_UNITS := 36
  const NAME_ROOM := 144
  const BUFFER := 4096
  const UINT64_RANGE := 0x1_0000_0000_0000_0000

  /** A sector of a physical partition; nothing where reading fails. */
  type Disk = (nat, nat) -> Option<bytes>

  datatype Header = Header(entryLba: nat, num: nat, entrySize: nat)

  datatype Partition = Partition(name: bytes, lun: nat, start: nat, num: nat)

  function Field(b: bytes, at: nat, n: nat): nat
    requires at + n <= |b|
  {
    LittleEndian(b[at..at + n])
  }

  /** The header in its sector (section 5.3.2 of the UEFI specification). */
  function ParseHeader(b: bytes): Option<Header>
    requires |b| >= 512
  {
    if b[..8] != Text(SIGNATURE) then None else Some(Header(Field(b, 72, 8), Field(b, 80, 4), Field(b, 84, 4)))
  }

  predicate Accepted(h: Header, ss: nat) {
    ENTRY_SIZE <= h.entrySize <= ss && ss % h.entrySize == 0 && h.num <= 1024
  }

  function Unit(low: byte, high: byte): (u: nat)
    ensures IsUnit(u)
  {
    low as int + 256 * high as int
  }

  /** The units of a name, little-endian. */
  function NameUnits(b: bytes): (r: seq<nat>)
    requires |b| == 2 * NAME_UNITS
    ensures |r| == NAME_UNITS && AreUnits(r)
  {
    seq(NAME_UNITS, i requires 0 <= i < NAME_UNITS => Unit(b[2 * i], b[2 * i + 1]))
  }

  /** An entry (section 5.3.3 of the UEFI specification); none for a type GUID of zero. */
  function ParseEntry(b: bytes, lun: nat): Option<Partition>
    requires |b| == ENTRY_SIZE
  {
    if b[..16] == Zeros(16) then None
    else
      var first, last := Field(b, 32, 8), Field(b, 40, 8);
      Some(Partition(Fitted(CodePoints(NameUnits(b[56..128]), 0), NAME_ROOM), lun, first,
                     (last - first + 1) % UINT64_RANGE))
  }

  // ----- The array of entries, as one piece

  /** The sectors from `lba` on, one after the other; none when one cannot be read. */
  function Sectors(disk: Disk, lun: nat, lba: nat, n: nat): Option<bytes> {
    if n == 0 then Some([])
    else
      var before, last := Sectors(disk, lun, lba, n - 1), disk(lun, (lba + n - 1) % UINT64_RANGE);
      if before.None? || last.None? then None else Some(before.value + last.value)
  }

  /** The entries in use among the first `n` of a flat array, in the order of their indices. */
  function Entries(table: bytes, entrySize: nat, n: nat, lun: nat): seq<Partition>
    requires entrySize >= ENTRY_SIZE && n * entrySize <= |table|
  {
    if n == 0 then []
    else
      Before(n, entrySize);
      var before, e := Entries(table, entrySize, n - 1, lun),
          ParseEntry(table[(n - 1) * entrySize..(n - 1) * entrySize + ENTRY_SIZE], lun);
      if e.Some? then before + [e.value] else before
  }

  lemma Before(n: nat, d: nat)
    requires n > 0
    ensures n * d == (n - 1) * d + d && 0 <= (n - 1) * d
  {
  }

  /** How many sectors `n` entries take. */
  function Spanned(n: nat, entrySize: nat, ss: nat): nat
    requires 0 < ss
  {
    (n * entrySize + ss - 1) / ss
  }

  // ----- Where an entry is

  /** Entry `i` is in sector `i * size / ss`, and does not reach out of it. */
  lemma EntryPlace(i: nat, k: nat, r: nat, size: nat, ss: nat)
    requires 0 < size && ss == k * size && r < k && 0 < k
    ensures var q := i / k; i % k == r ==> i * size / ss == q && i * size % ss == r * size && r * size + size <= ss
  {
    if i % k == r {
      var q := i / k;
      assert i == q * k + r;
      assert i * size == q * ss + r * size by { Distributes(q, k, r, size); }
      assert (r + 1) * size <= k * size by { AtMost(r + 1, k, size); }
      assert (r + 1) * size == r * size + size;
      Quotient(q, r * size, ss);
    }
  }

  lemma Distributes(q: nat, k: nat, r: nat, size: nat)
    ensures (q * k + r) * size == q * (k * size) + r * size
  {
  }

  lemma {:induction false} AtMost(a: nat, b: nat, d: nat)
    requires a <= b
    ensures a * d <= b * d
  {
  }

  lemma Quotient(q: nat, r: nat, d: nat)
    requires r < d
    ensures (q * d + r) / d == q && (q * d + r) % d == r
  {
    var x, m := (q * d + r) / d, (q * d + r) % d;
    assert (x - q) * d == r - m;
    if x > q { AtMost(1, x - q, d); }
    if x < q { AtMost(1, q - x, d); }
  }

  // ----- Sectors and entries, step by step

  ghost predicate Uniform(disk: Disk, ss: nat)
      { forall lun, lba :: disk(lun, lba).Some? ==> |disk(lun, lba).value| == ss }

  lemma {:induction false} SectorsLength(disk: Disk, ss: nat, lun: nat, lba: nat, n: nat)
    requires Uniform(disk, ss) && Sectors(disk, lun, lba, n).Some?
    ensures |Sectors(disk, lun, lba, n).value| == n * ss
  {
    if n > 0 {
      SectorsLength(disk, ss, lun, lba, n - 1);
      Before(n, ss);
    }
  }

  lemma {:induction false} SectorsFail(disk: Disk, lun: nat, lba: nat, m: nat, n: nat)
    requires m <= n && Sectors(disk, lun, lba, m).None?
    ensures Sectors(disk, lun, lba, n).None?
  {
    if m < n { SectorsFail(disk, lun, lba, m, n - 1); }
  }

  /** What is behind the entries does not matter to them. */
  lemma {:induction false} EntriesOfPrefix(table: bytes, more: bytes, entrySize: nat, n: nat, lun: nat)
    requires entrySize >= ENTRY_SIZE && n * entrySize <= |table|
    ensures n * entrySize <= |table + more|
            && Entries(table + more, entrySize, n, lun) == Entries(table, entrySize, n, lun)
  {
    hide ParseEntry;
    if n > 0 {
      Before(n, entrySize);
      EntriesOfPrefix(table, more, entrySize, n - 1, lun);
      var at := (n - 1) * entrySize;
      assert (table + more)[at..at + ENTRY_SIZE] == table[at..at + ENTRY_SIZE];
    }
  }

  /** An entry within the last sector of the array. */
  lemma EntryInSector(before: bytes, sector: bytes, at: nat, offset: nat)
    requires at == |before| + offset && offset + ENTRY_SIZE <= |sector|
    ensures at + ENTRY_SIZE <= |before + sector|
    ensures (before + sector)[at..at + ENTRY_SIZE] == sector[offset..offset + ENTRY_SIZE]
  {
  }

  /** How many entries at the start of a sector the buffer has room for. */
  function Fitting(entrySize: nat): (n: nat)
    requires entrySize >= ENTRY_SIZE
    ensures n > 0
  {
    (BUFFER - ENTRY_SIZE) / entrySize + 1
  }

  /** Some entry of the first sector, in use or not, is not whole in what the buffer holds of it. */
  predicate Behind(h: Header, ss: nat)
    requires Accepted(h, ss)
  {
    Fitting(h.entrySize) < ss / h.entrySize && Fitting(h.entrySize) < h.num
  }

  lemma FitsIff(r: nat, size: nat)
    requires size >= ENTRY_SIZE
    ensures r * size + ENTRY_SIZE <= BUFFER <==> r < Fitting(size)
  {
    var q, m := (BUFFER - ENTRY_SIZE) / size, (BUFFER - ENTRY_SIZE) % size;
    assert BUFFER - ENTRY_SIZE == q * size + m;
    if r <= q { AtMost(r, q, size); } else { AtMost(q + 1, r, size); Before(q + 1, size); }
  }

  /** Sectors that fit the buffer have no entry behind it. */
  lemma NeverBehind(h: Header, ss: nat)
    requires Accepted(h, ss) && ss <= BUFFER
    ensures !Behind(h, ss)
  {
    var k, f := ss / h.entrySize, Fitting(h.entrySize);
    PerSector(h.entrySize, ss);
    if f < k {
      FitsIff(f, h.entrySize);
      AtMost(f + 1, k, h.entrySize);
      Before(f + 1, h.entrySize);
    }
  }

  /**
   * What a physical partition's table holds. With sectors larger than the buffer, which are not
   * among those that a device is asked for, an entry may not be whole in it; the model ends there.
   */
  datatype Table = BeyondLast | BadTable | BehindBuffer | Listing(partitions: seq<Partition>)

  function TableOf(disk: Disk, ss: nat, lun: nat): Table
    requires ss >= 512 && Uniform(disk, ss)
  {
    if disk(lun, HEADER_LBA).None? then BeyondLast
    else
      match ParseHeader(disk(lun, HEADER_LBA).value)
      case None => Listing([])
      case Some(h) =>
        if !Accepted(h, ss) then BadTable
        else if Behind(h, ss) then if Sectors(disk, lun, h.entryLba, 1).None? then BadTable else BehindBuffer
        else
          match Sectors(disk, lun, h.entryLba, Spanned(h.num, h.entrySize, ss))
          case None => BadTable
          case Some(table) =>
            TableHolds(disk, ss, lun, h);
            Listing(Entries(table, h.entrySize, h.num, lun))
  }

  lemma TableHolds(disk: Disk, ss: nat, lun: nat, h: Header)
    requires 0 < ss && Uniform(disk, ss)
    requires Sectors(disk, lun, h.entryLba, Spanned(h.num, h.entrySize, ss)).Some?
    ensures h.num * h.entrySize <= |Sectors(disk, lun, h.entryLba, Spanned(h.num, h.entrySize, ss)).value|
  {
    var n := Spanned(h.num, h.entrySize, ss);
    SectorsLength(disk, ss, lun, h.entryLba, n);
    RoundsUp(h.num * h.entrySize, ss);
  }

  lemma RoundsUp(x: nat, d: nat)
    requires 0 < d
    ensures x <= (x + d - 1) / d * d < x + d
  {
    var q, r := (x + d - 1) / d, (x + d - 1) % d;
    assert x + d - 1 == q * d + r;
  }

  /** The tables from physical partition `lun` on, up to the first that cannot be read. */
  function TablesFrom(disk: Disk, ss: nat, lun: nat, end: nat): (r: Table)
    requires ss >= 512 && Uniform(disk, ss) && lun <= end && disk(end, HEADER_LBA).None?
    ensures !r.BeyondLast?
    decreases end - lun
  {
    var t := TableOf(disk, ss, lun);
    if t.BeyondLast? then Listing([])
    else if !t.Listing? then t
    else
      var rest := TablesFrom(disk, ss, lun + 1, end);
      if rest.Listing? then Listing(t.partitions + rest.partitions) else rest
  }

  // ----- Finding

  predicate IsCalled(p: Partition, name: bytes, lun: Option<nat>) {
    p.name == name && (lun.None? || p.lun == lun.value)
  }

  /** The first partition of the name. */
  function FirstCalled(ps: seq<Partition>, name: bytes, lun: Option<nat>): (i: nat)
    ensures i <= |ps| && (i < |ps| ==> IsCalled(ps[i], name, lun))
    ensures forall j :: 0 <= j < i ==> !IsCalled(ps[j], name, lun)
  {
    if |ps| == 0 || IsCalled(ps[0], name, lun) then 0 else 1 + FirstCalled(ps[1..], name, lun)
  }

  /** No other partition of that name on the same physical partition; others are not looked at. */
  predicate AloneFrom(ps: seq<Partition>, i: nat, n: nat)
    requires i < |ps| && n <= |ps|
  {
    forall j :: i < j < n ==> !IsCalled(ps[j], ps[i].name, Some(ps[i].lun))
  }

  /** The buffer has the sector's bytes, as far as it goes. */
  predicate Holds(buf: bytes, sector: bytes) {
    forall i :: 0 <= i < |buf| && i < |sector| ==> buf[i] == sector[i]
  }

  lemma EntryHeld(buf: bytes, sector: bytes, offset: nat)
    requires Holds(buf, sector) && offset + ENTRY_SIZE <= |buf| && offset + ENTRY_SIZE <= |sector|
    ensures buf[offset..offset + ENTRY_SIZE] == sector[offset..offset + ENTRY_SIZE]
  {
  }

  class PartitionTables {
    const disk: Disk
    const sectorSize: nat
    var partitions: seq<Partition>

    constructor (disk: Disk, sectorSize: nat)
      ensures this.disk == disk && this.sectorSize == sectorSize && partitions == []
    {
      this.disk, this.sectorSize, partitions := disk, sectorSize, [];
    }

    /** The device has sectors of one size, and no more physical partitions than `end`. */
    ghost predicate Valid() {
      512 <= sectorSize && Uniform(disk, sectorSize)
    }

    /** One sector into a buffer that is zero behind it, as much of it as there is room for. */
    method ReadSector(lun: nat, lba: nat, buf: array<byte>) returns (ok: bool)
      requires Valid() && buf.Length == BUFFER
      modifies buf
      ensures ok <==> disk(lun, lba).Some?
      ensures ok ==> Holds(buf[..], disk(lun, lba).value)
    {
      var sector := disk(lun, lba);
      if sector.None? {
        return false;
      }
      forall i | 0 <= i < BUFFER {
        buf[i] := if i < sectorSize then sector.value[i] else 0;
      }
      return true;
    }

    /** The entry at `offset` of the buffer, appended unless it is empty. */
    method AppendEntry(lun: nat, buf: array<byte>, offset: nat)
      requires buf.Length == BUFFER && offset + ENTRY_SIZE <= BUFFER
      modifies this
      ensures var e := ParseEntry(buf[offset..offset + ENTRY_SIZE], lun);
              partitions == if e.Some? then old(partitions) + [e.value] else old(partitions)
    {
      hide Fitted, CodePoints;
      var entry := buf[offset..offset + ENTRY_SIZE];
      if entry[..16] == Zeros(16) {
        return;
      }
      var name := new byte[NAME_ROOM];
      var len := Utf16ToUtf8(NameUnits(entry[56..128]), name);
      var first, last := Field(entry, 32, 8), Field(entry, 40, 8);
      partitions := partitions + [Partition(name[..len], lun, first, (last - first + 1) % UINT64_RANGE)];
    }

    /** The sector that entry `i` starts, behind the `m` sectors before it. */
    method ReadNext(lun: nat, h: Header, i: nat, buf: array<byte>, ghost m: nat, ghost k: nat, ghost table: bytes)
      returns (ok: bool, ghost sector: bytes)
      requires Valid() && Accepted(h, sectorSize) && buf.Length == BUFFER && sectorSize == k * h.entrySize
      requires Reached(i, m, k) && i < h.num && i % k * h.entrySize == 0 && i * h.entrySize / sectorSize == i / k
      requires Sectors(disk, lun, h.entryLba, m) == Some(table) && i * h.entrySize <= |table| == m * sectorSize
      modifies buf
      ensures i == m * k && m + 1 <= Spanned(h.num, h.entrySize, sectorSize)
      ensures ok <==> Sectors(disk, lun, h.entryLba, m + 1).Some?
      ensures ok ==> |sector| == sectorSize && Holds(buf[..], sector)
      ensures ok ==> Sectors(disk, lun, h.entryLba, m + 1) == Some(table + sector)
      ensures ok ==> i * h.entrySize <= |table + sector| == (m + 1) * sectorSize
      ensures ok ==> Entries(table + sector, h.entrySize, i, lun) == Entries(table, h.entrySize, i, lun)
    {
      hide ParseEntry, Entries;
      StartsSector(i, m, k, h.entrySize);
      SectorsNeeded(i, m, k, h.entrySize, sectorSize, h.num);
      var lba := (h.entryLba + i * h.entrySize / sectorSize) % UINT64_RANGE;
      ok := ReadSector(lun, lba, buf);
      sector := [];
      if ok {
        sector := disk(lun, lba).value;
        EntriesOfPrefix(table, sector, h.entrySize, i, lun);
        Before(m + 1, sectorSize);
      }
    }

    /**
     * The loop over the entries: a sector at a time, whenever an entry starts one. It cannot
     * go on once an entry is behind the buffer.
     */
    method LoadEntries(lun: nat, h: Header) returns (ok: bool, behind: bool)
      requires Valid() && Accepted(h, sectorSize)
      modifies this
      ensures behind <==> Behind(h, sectorSize) && Sectors(disk, lun, h.entryLba, 1).Some?
      ensures ok <==> !Behind(h, sectorSize)
                      && Sectors(disk, lun, h.entryLba, Spanned(h.num, h.entrySize, sectorSize)).Some?
      ensures ok ==> TableOfHeader(lun, h).Some? && partitions == old(partitions) + TableOfHeader(lun, h).value
    {
      hide ParseEntry, Uniform, Sectors, Entries, Reached, Spanned, Fitting, Holds;
      var ss, size := sectorSize, h.entrySize;
      ghost var k := ss / size;
      ghost var m := 0;
      ghost var table: bytes, sector: bytes := [], [];
      PerSector(size, ss);
      NothingRead(disk, lun, h.entryLba, size, k);
      var buf := new byte[BUFFER](_ => 0);
      for i := 0 to h.num
        invariant Reached(i, m, k) && Sectors(disk, lun, h.entryLba, m) == Some(table)
        invariant i * size <= |table| == m * ss && partitions == old(partitions) + Entries(table, size, i, lun)
        invariant m > 0 ==> 0 <= (m - 1) * ss <= |table| && sector == table[(m - 1) * ss..] && |sector| == ss
        invariant m > 0 ==> Holds(buf[..], sector)
        invariant Fitting(size) >= k || i <= Fitting(size)
      {
        var offset := i * size % ss;
        EntryPlace(i, k, i % k, size, ss);
        if offset == 0 {
          ghost var next;
          ok, next := ReadNext(lun, h, i, buf, m, k, table);
          if !ok {
            SectorsFail(disk, lun, h.entryLba, m + 1, Spanned(h.num, size, ss));
            FirstFails(i, m, k, size);
            return false, false;
          }
          assert (table + next)[m * ss..] == next;
          m, table, sector := m + 1, table + next, next;
        }
        Midway(i, m, k, size, ss, offset);
        InSector(i, m, k, size, ss);
        FitsIff(i % k, size);
        if offset + ENTRY_SIZE > BUFFER {
          FirstBehind(i, m, k, size);
          return false, true;
        }
        StillFits(i, k, size);
        EntryStep(table, sector, size, i, lun, (m - 1) * ss, offset);
        EntryHeld(buf[..], sector, offset);
        assert buf[..][offset..offset + ENTRY_SIZE] == buf[offset..offset + ENTRY_SIZE];
        AppendEntry(lun, buf, offset);
      }
      AllSpanned(h.num, m, k, size, ss);
      return true, false;
    }

    ghost function TableOfHeader(lun: nat, h: Header): Option<seq<Partition>>
      requires Valid() && Accepted(h, sectorSize)
    {
      match Sectors(disk, lun, h.entryLba, Spanned(h.num, h.entrySize, sectorSize))
      case None => None
      case Some(table) =>
        TableHolds(disk, sectorSize, lun, h);
        Some(Entries(table, h.entrySize, h.num, lun))
    }

    /** `gpt_load_table_from_partition` */
    method LoadTableFromPartition(lun: nat) returns (ok: bool, eof: bool, behind: bool)
      requires Valid()
      modifies this
      ensures ok <==> TableOf(disk, sectorSize, lun).Listing?
      ensures ok ==> partitions == old(partitions) + TableOf(disk, sectorSize, lun).partitions
      ensures eof <==> TableOf(disk, sectorSize, lun).BeyondLast?
      ensures eof ==> partitions == old(partitions)
      ensures behind <==> TableOf(disk, sectorSize, lun).BehindBuffer?
    {
      hide Sectors, Entries, Behind;
      var sector := disk(lun, HEADER_LBA);
      if sector.None? {
        return false, true, false;
      }
      var h := ParseHeader(sector.value);
      if h.None? {
        return true, false, false;
      }
      if !Accepted(h.value, sectorSize) {
        return false, false, false;
      }
      ok, behind := LoadEntries(lun, h.value);
      eof := false;
    }

    /** `gpt_load_tables`: once there are partitions, nothing is read again. */
    method LoadTables(ghost end: nat) returns (ok: bool, behind: bool)
      requires Valid() && disk(end, HEADER_LBA).None?
      modifies this
      ensures old(partitions) != [] ==> ok && !behind && partitions == old(partitions)
      ensures old(partitions) == [] ==>
                var all := TablesFrom(disk, sectorSize, 0, end);
                (ok <==> all.Listing?) && (behind <==> all.BehindBuffer?) && (ok ==> partitions == all.partitions)
    {
      hide TableOf, Uniform, TablesFrom;
      if partitions != [] {
        return true, false;
      }
      EndsThere(disk, sectorSize, end);
      var lun := 0;
      var eof;
      while true
        invariant lun <= end
        invariant Adds(TablesFrom(disk, sectorSize, 0, end), partitions, TablesFrom(disk, sectorSize, lun, end))
        decreases end - lun
      {
        NextTable(disk, sectorSize, lun, end, partitions);
        ok, eof, behind := LoadTableFromPartition(lun);
        if !ok {
          return eof, behind;
        }
        lun := lun + 1;
      }
      assert false;
      return false, false;
    }

    /** `gpt_find_by_name`, the tables being loaded; the first match fixes the physical partition. */
    method FindByName(name: bytes, lun: Option<nat>) returns (r: Option<Partition>)
      ensures var i := FirstCalled(partitions, name, lun);
              && (r.Some? <==> i < |partitions| && AloneFrom(partitions, i, |partitions|))
              && (r.Some? ==> r.value == partitions[i])
    {
      var found: Option<Partition> := None;
      var wanted := lun;
      ghost var first := FirstCalled(partitions, name, lun);
      for j := 0 to |partitions|
        invariant found.None? <==> j <= first
        invariant found.None? ==> wanted == lun
        invariant found.Some? ==> found.value == partitions[first] && wanted == Some(found.value.lun)
        invariant found.Some? ==> AloneFrom(partitions, first, j)
      {
        var p := partitions[j];
        if wanted.Some? && p.lun != wanted.value {
          continue;
        }
        if p.name != name {
          continue;
        }
        if found.Some? {
          assert IsCalled(partitions[j], partitions[first].name, Some(partitions[first].lun));
          return None;
        }
        assert IsCalled(partitions[j], name, lun);
        found, wanted := Some(p), Some(p.lun);
      }
      return found;
    }
  }

  /** All the tables are those loaded and the rest, unless the rest fails. */
  predicate Adds(all: Table, before: seq<Partition>, rest: Table) {
    if rest.Listing? then all == Listing(before + rest.partitions) else all == rest
  }

  /** What a table adds to those before it. */
  lemma NextTable(disk: Disk, ss: nat, lun: nat, end: nat, before: seq<Partition>)
    requires ss >= 512 && Uniform(disk, ss) && lun <= end && disk(end, HEADER_LBA).None?
    requires TableOf(disk, ss, end) == BeyondLast
    ensures var t, all := TableOf(disk, ss, lun), TablesFrom(disk, ss, lun, end);
            && (t.BeyondLast? ==> all == Listing([]) && before + [] == before)
            && (t.BadTable? || t.BehindBuffer? ==> all == t)
            && (t.Listing? ==>
                  lun < end
                  && var rest := TablesFrom(disk, ss, lun + 1, end);
                     if rest.Listing? then
                       all.Listing? && before + all.partitions == before + t.partitions + rest.partitions
                     else all == rest)
  {
    hide TableOf, Uniform;
  }

  lemma EndsThere(disk: Disk, ss: nat, end: nat)
    requires ss >= 512 && Uniform(disk, ss) && disk(end, HEADER_LBA).None?
    ensures TableOf(disk, ss, end) == BeyondLast
  {
  }

  // ----- Arithmetic of the loop: `k` entries to a sector, `m` sectors read before entry `i`

  predicate Reached(i: nat, m: nat, k: nat) {
    0 < k && (m == 0 ==> i == 0) && (m > 0 ==> (m - 1) * k < i <= m * k)
  }

  lemma PerSector(size: nat, ss: nat)
    requires 0 < size <= ss && ss % size == 0
    ensures ss / size > 0 && ss == ss / size * size
  {
    var q := ss / size;
    assert ss == q * size + ss % size;
  }

  /** An entry at the start of a sector is the first of the next one. */
  lemma StartsSector(i: nat, m: nat, k: nat, size: nat)
    requires Reached(i, m, k) && 0 < size && i % k * size == 0
    ensures i == m * k && i / k == m
  {
    assert i % k == 0 by { if i % k > 0 { AtMost(1, i % k, size); } }
    var q := i / k;
    assert i == q * k;
    if m > 0 {
      if q < m { AtMost(q, m - 1, k); }
      if q > m { AtMost(m + 1, q, k); Before(m + 1, k); }
    }
    Quotient(m, 0, k);
  }

  /** That sector is one of those the array takes. */
  lemma SectorsNeeded(i: nat, m: nat, k: nat, size: nat, ss: nat, num: nat)
    requires i == m * k && i < num && 0 < size && 0 < ss == k * size
    ensures m + 1 <= Spanned(num, size, ss)
  {
    var n := Spanned(num, size, ss);
    RoundsUp(num * size, ss);
    assert m * ss == i * size by { Distributes(m, k, 0, size); }
    assert i * size + size <= num * size by { AtMost(i + 1, num, size); Before(i + 1, size); }
    if n <= m { AtMost(n, m, ss); }
  }

  lemma NothingRead(disk: Disk, lun: nat, lba: nat, entrySize: nat, k: nat)
    requires entrySize >= ENTRY_SIZE && 0 < k
    ensures Sectors(disk, lun, lba, 0) == Some([]) && Entries([], entrySize, 0, lun) == [] && Reached(0, 0, k)
  {
  }

  /** Between sector starts the entry is in the sector that was read last. */
  lemma Midway(i: nat, m: nat, k: nat, size: nat, ss: nat, offset: nat)
    requires 0 < k && 0 < size && ss == k * size && offset == i % k * size
    requires if offset == 0 then m > 0 && i == (m - 1) * k else Reached(i, m, k)
    ensures m > 0 && (m - 1) * k <= i < m * k
  {
    if offset == 0 {
      Before(m, k);
    } else if m > 0 && i == m * k {
      Quotient(m, 0, k);
    }
  }

  /** One more entry, which stands at `offset` of the last sector. */
  lemma EntryStep(table: bytes, sector: bytes, size: nat, i: nat, lun: nat, base: nat, offset: nat)
    requires size >= ENTRY_SIZE && base <= |table| && sector == table[base..]
    requires i * size == base + offset && offset + size <= |sector|
    ensures (i + 1) * size <= |table|
    ensures var e := ParseEntry(sector[offset..offset + ENTRY_SIZE], lun);
            Entries(table, size, i + 1, lun) == if e.Some? then Entries(table, size, i, lun) + [e.value]
                else Entries(table, size, i, lun)
  {
    hide ParseEntry;
    Before(i + 1, size);
    EntryInSector(table[..base], sector, i * size, offset);
    assert table == table[..base] + sector;
  }

  lemma InSector(i: nat, m: nat, k: nat, size: nat, ss: nat)
    requires 0 < k && 0 < size && ss == k * size && m > 0 && (m - 1) * k <= i < m * k
    ensures i * size % ss + size <= ss && i * size == (m - 1) * ss + i * size % ss && Reached(i + 1, m, k)
  {
    var r := i - (m - 1) * k;
    Before(m, k);
    Quotient(m - 1, r, k);
    EntryPlace(i, k, r, size, ss);
    Distributes(m - 1, k, r, size);
  }

  /** Where the buffer has no room for a whole sector's entries, the loop never gets to a second sector. */
  lemma FirstFails(i: nat, m: nat, k: nat, size: nat)
    requires i == m * k && 0 < k && size >= ENTRY_SIZE && (Fitting(size) >= k || i <= Fitting(size))
    ensures Fitting(size) < k ==> m == 0
  {
    if m > 0 { AtMost(1, m, k); }
  }

  lemma FirstBehind(i: nat, m: nat, k: nat, size: nat)
    requires 0 < k && size >= ENTRY_SIZE && m > 0 && (m - 1) * k <= i < m * k
    requires Fitting(size) >= k || i <= Fitting(size)
    requires i % k >= Fitting(size)
    ensures m == 1 && i == Fitting(size) < k
  {
    if m > 1 { AtMost(1, m - 1, k); }
  }

  lemma StillFits(i: nat, k: nat, size: nat)
    requires 0 < k && size >= ENTRY_SIZE && (Fitting(size) >= k || i <= Fitting(size)) && i % k < Fitting(size)
    ensures Fitting(size) >= k || i + 1 <= Fitting(size)
  {
    hide Fitting;
    SmallRest(i, k);
  }

  lemma SmallRest(i: nat, k: nat)
    requires 0 < k
    ensures i < k ==> i % k == i
  {
  }

  lemma AllSpanned(num: nat, m: nat, k: nat, size: nat, ss: nat)
    requires Reached(num, m, k) && 0 < size && 0 < ss == k * size
    ensures m == Spanned(num, size, ss)
  {
    var n := Spanned(num, size, ss);
    RoundsUp(num * size, ss);
    assert m * ss == m * k * size by { Distributes(m, k, 0, size); }
    if m == 0 {
      assert n * ss < ss;
      if n > 0 { AtMost(1, n, ss); }
    } else {
      AtMost(num, m * k, size);
      assert (m - 1) * ss + size <= num * size by {
        Distributes(m - 1, k, 0, size);
        AtMost((m - 1) * k + 1, num, size);
        Before((m - 1) * k + 1, size);
      }
      if n < m { AtMost(n, m - 1, ss); }
      if n > m { AtMost(m + 1, n, ss); Before(m + 1, ss); }
    }
  }
}

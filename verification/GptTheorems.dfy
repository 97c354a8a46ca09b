/** A partition array that was laid out entry by entry is listed entry by entry. */
module GptTheorems {
  import opened Bytes
  import opened Options
  import opened Utf16
  import opened Gpt

  /** An entry of the array: unused, or a partition with a well-formed name. */
  datatype Slot =
    | Unused(rest: bytes)
    | Used(typeGuid: bytes, uniqueGuid: bytes, first: nat, last: nat, attributes: bytes, name: seq<nat>, rest: bytes)

  predicate SlotOk(s: Slot, entrySize: nat) {
    && |s.rest| == (if s.Unused? then entrySize - 16 else entrySize - ENTRY_SIZE) && entrySize >= ENTRY_SIZE
    && (s.Used? ==>
          && |s.typeGuid| == 16 && s.typeGuid != Zeros(16) && |s.uniqueGuid| == 16 && |s.attributes| == 8
          && s.first < UINT64_RANGE && s.last < UINT64_RANGE
          && AreNameScalars(s.name) && |AllUnits(s.name)| <= NAME_UNITS)
  }

  function UnitBytes(units: seq<nat>): (r: bytes)
    requires AreUnits(units)
    ensures |r| == 2 * |units|
  {
    if |units| == 0 then [] else [units[0] % 256, units[0] / 256] + UnitBytes(units[1..])
  }

  /** The units of a name, filled up with NULs. */
  function NameField(cps: seq<nat>): (r: seq<nat>)
    requires AreNameScalars(cps) && |AllUnits(cps)| <= NAME_UNITS
    ensures |r| == NAME_UNITS && AreUnits(r)
  {
    AllUnits(cps) + seq(NAME_UNITS - |AllUnits(cps)|, _ => 0)
  }

  function SlotBytes(s: Slot, entrySize: nat): (r: bytes)
    requires SlotOk(s, entrySize)
    ensures |r| == entrySize
  {
    match s
    case Unused(rest) => Zeros(16) + rest
    case Used(typeGuid, uniqueGuid, first, last, attributes, name, rest) =>
      typeGuid + uniqueGuid + LittleEndianBytes(first, 8) + LittleEndianBytes(last, 8) + attributes
      + UnitBytes(NameField(name)) + rest
  }

  /** What a slot is listed as; sizes are counted inclusively. */
  function SlotPartition(s: Slot, lun: nat): Option<Partition>
    requires s.Used? ==> AreNameScalars(s.name)
  {
    match s
    case Unused(_) => None
    case Used(_, _, first, last, _, name, _) =>
      Some(Partition(Encode(name), lun, first, (last - first + 1) % UINT64_RANGE))
  }

  lemma {:induction false} UnitAt(units: seq<nat>, i: nat)
    requires AreUnits(units) && i < |units|
    ensures UnitBytes(units)[2 * i] == units[i] % 256 && UnitBytes(units)[2 * i + 1] == units[i] / 256
  {
    if i > 0 { UnitAt(units[1..], i - 1); }
  }

  lemma UnitOfBytes(u: nat)
    requires IsUnit(u)
    ensures u / 256 < 256 && Unit(u % 256, u / 256) == u
  {
  }

  lemma UnitsReadBack(units: seq<nat>)
    requires AreUnits(units) && |units| == NAME_UNITS
    ensures NameUnits(UnitBytes(units)) == units
  {
    hide UnitBytes, Unit;
    forall i | 0 <= i < NAME_UNITS ensures NameUnits(UnitBytes(units))[i] == units[i] {
      UnitAt(units, i);
      UnitOfBytes(units[i]);
    }
  }

  lemma Power256Of8()
    ensures Power256(8) == UINT64_RANGE
  {
    assert Power256(2) == 0x10000 && Power256(4) == 0x1_0000_0000 && Power256(6) == 0x1_0000_0000_0000;
  }

  lemma NameReadsBack(cps: seq<nat>)
    requires AreNameScalars(cps) && |AllUnits(cps)| <= NAME_UNITS
    ensures Fitted(CodePoints(NameUnits(UnitBytes(NameField(cps))), 0), NAME_ROOM) == Encode(cps)
  {
    hide Fitted, CodePoints, Encode, UnitBytes;
    UnitsReadBack(NameField(cps));
    NameSurvives(NameField(cps), cps, NAME_ROOM);
  }

  /** The parts of a used slot, where they stand. */
  lemma SlotParts(s: Slot, entrySize: nat)
    requires SlotOk(s, entrySize) && s.Used?
    ensures var b := SlotBytes(s, entrySize);
            && b[..16] == s.typeGuid && b[32..40] == LittleEndianBytes(s.first, 8)
                && b[40..48] == LittleEndianBytes(s.last, 8)
            && b[56..128] == UnitBytes(NameField(s.name))
  {
    hide LittleEndianBytes, UnitBytes, NameField, AllUnits;
  }

  lemma UnusedStarts(s: Slot, entrySize: nat)
    requires SlotOk(s, entrySize) && s.Unused?
    ensures SlotBytes(s, entrySize)[..16] == Zeros(16)
  {
  }

  lemma SlotReadsBack(s: Slot, entrySize: nat, lun: nat)
    requires SlotOk(s, entrySize)
    ensures ParseEntry(SlotBytes(s, entrySize)[..ENTRY_SIZE], lun) == SlotPartition(s, lun)
  {
    hide SlotBytes, LittleEndian, Fitted, CodePoints, NameUnits, UnitBytes, AllUnits, LittleEndianBytes, Power256;
    var b := SlotBytes(s, entrySize);
    var e := b[..ENTRY_SIZE];
    assert e[..16] == b[..16];
    if s.Used? {
      SlotParts(s, entrySize);
      NameReadsBack(s.name);
      Power256Of8();
      LittleEndianRoundTrip(s.first, 8);
      LittleEndianRoundTrip(s.last, 8);
      assert e[32..40] == b[32..40] && e[40..48] == b[40..48] && e[56..128] == b[56..128];
    } else {
      UnusedStarts(s, entrySize);
    }
  }

  predicate SlotsOk(slots: seq<Slot>, entrySize: nat) { forall i :: 0 <= i < |slots| ==> SlotOk(slots[i], entrySize) }

  function ArrayBytes(slots: seq<Slot>, entrySize: nat): (r: bytes)
    requires SlotsOk(slots, entrySize)
    ensures |r| == |slots| * entrySize
  {
    if |slots| == 0 then []
    else
      Before(|slots|, entrySize);
      ArrayBytes(slots[..|slots| - 1], entrySize) + SlotBytes(slots[|slots| - 1], entrySize)
  }

  function Listed(slots: seq<Slot>, lun: nat): seq<Partition>
    requires forall i :: 0 <= i < |slots| && slots[i].Used? ==> AreNameScalars(slots[i].name)
  {
    if |slots| == 0 then []
    else
      var before, p := Listed(slots[..|slots| - 1], lun), SlotPartition(slots[|slots| - 1], lun);
      if p.Some? then before + [p.value] else before
  }

  /** The array is listed slot by slot, unused ones left out, whatever stands behind it. */
  lemma {:induction false} ArrayReadsBack(slots: seq<Slot>, entrySize: nat, lun: nat, more: bytes)
    requires SlotsOk(slots, entrySize) && entrySize >= ENTRY_SIZE
    ensures |slots| * entrySize <= |ArrayBytes(slots, entrySize) + more|
    ensures Entries(ArrayBytes(slots, entrySize) + more, entrySize, |slots|, lun) == Listed(slots, lun)
  {
    hide ParseEntry, SlotBytes, SlotOk, SlotPartition;
    if |slots| > 0 {
      var init, last := slots[..|slots| - 1], slots[|slots| - 1];
      var at := |init| * entrySize;
      Before(|slots|, entrySize);
      var array_, tail := ArrayBytes(init, entrySize), SlotBytes(last, entrySize) + more;
      assert ArrayBytes(slots, entrySize) + more == array_ + tail;
      ArrayReadsBack(init, entrySize, lun, tail);
      assert (array_ + tail)[at..at + ENTRY_SIZE] == SlotBytes(last, entrySize)[..ENTRY_SIZE];
      SlotReadsBack(last, entrySize, lun);
    }
  }

  // ----- A whole table

  /** A header sector: "EFI PART", fields that are not looked at, where the array is, and the rest of the sector. */
  function HeaderBytes(front: bytes, entryLba: nat, num: nat, entrySize: nat, back: bytes): (r: bytes)
    requires |front| == 64
    ensures |r| == 88 + |back|
  {
    [0x45, 0x46, 0x49, 0x20, 0x50, 0x41, 0x52, 0x54] + front + LittleEndianBytes(entryLba, 8)
    + LittleEndianBytes(num, 4) + LittleEndianBytes(entrySize, 4) + back
  }

  lemma HeaderParts(sig: bytes, front: bytes, a: bytes, b: bytes, c: bytes, back: bytes)
    requires |sig| == 8 && |front| == 64 && |a| == 8 && |b| == 4 && |c| == 4
    ensures var s := sig + front + a + b + c + back;
            s[..8] == sig && s[72..80] == a && s[80..84] == b && s[84..88] == c
  {
  }

  lemma SignatureIs()
    ensures Text(SIGNATURE) == [0x45, 0x46, 0x49, 0x20, 0x50, 0x41, 0x52, 0x54]
  {
  }

  /** A header that was laid out is read back. */
  lemma HeaderReadsBack(front: bytes, entryLba: nat, num: nat, entrySize: nat, back: bytes)
    requires |front| == 64 && |back| >= 424
    requires entryLba < UINT64_RANGE && num < 0x1_0000_0000 && entrySize < 0x1_0000_0000
    ensures ParseHeader(HeaderBytes(front, entryLba, num, entrySize, back)) == Some(Header(entryLba, num, entrySize))
  {
    hide LittleEndian, LittleEndianBytes, Power256, Text;
    SignatureIs();
    HeaderParts([0x45, 0x46, 0x49, 0x20, 0x50, 0x41, 0x52, 0x54], front, LittleEndianBytes(entryLba, 8),
                LittleEndianBytes(num, 4), LittleEndianBytes(entrySize, 4), back);
    Power256Of8();
    Power256Of4();
    LittleEndianRoundTrip(entryLba, 8);
    LittleEndianRoundTrip(num, 4);
    LittleEndianRoundTrip(entrySize, 4);
  }

  lemma Power256Of4()
    ensures Power256(4) == 0x1_0000_0000
  {
    assert Power256(2) == 0x10000;
  }

  /** A disk with a header in sector 1 and an array where the header says: its partitions are listed, slot by slot. */
  lemma TableReadsBack(disk: Disk, ss: nat, lun: nat, front: bytes, entryLba: nat, slots: seq<Slot>, entrySize: nat,
                       back: bytes, more: bytes)
    requires 512 <= ss <= BUFFER && Uniform(disk, ss) && |front| == 64 && entryLba < UINT64_RANGE
    requires ENTRY_SIZE <= entrySize <= ss && ss % entrySize == 0 && |slots| <= 1024 && SlotsOk(slots, entrySize)
    requires disk(lun, 1) == Some(HeaderBytes(front, entryLba, |slots|, entrySize, back))
    requires Sectors(disk, lun, entryLba, Spanned(|slots|, entrySize, ss)) == Some(ArrayBytes(slots, entrySize) + more)
    ensures TableOf(disk, ss, lun) == Listing(Listed(slots, lun))
  {
    hide ParseHeader, Sectors, Entries, ArrayBytes, Listed, SlotsOk, HeaderBytes, Spanned, Behind;
    assert |disk(lun, 1).value| == ss;
    HeaderReadsBack(front, entryLba, |slots|, entrySize, back);
    NeverBehind(Header(entryLba, |slots|, entrySize), ss);
    ArrayReadsBack(slots, entrySize, lun, more);
  }

  /** A header that asks for more than 1024 entries, or for entries that do not fill a sector, is refused. */
  lemma TableRefused(disk: Disk, ss: nat, lun: nat, front: bytes, entryLba: nat, num: nat, entrySize: nat, back: bytes)
    requires 512 <= ss && Uniform(disk, ss) && |front| == 64
    requires entryLba < UINT64_RANGE && num < 0x1_0000_0000 && entrySize < 0x1_0000_0000
    requires disk(lun, 1) == Some(HeaderBytes(front, entryLba, num, entrySize, back))
    requires num > 1024 || entrySize < 128 || entrySize > ss || ss % entrySize != 0
    ensures TableOf(disk, ss, lun) == BadTable
  {
    hide ParseHeader, HeaderBytes;
    assert |disk(lun, 1).value| == ss;
    HeaderReadsBack(front, entryLba, num, entrySize, back);
  }

  // ----- Finding

  /** The first partition of the name, on the physical partition asked for if any, and no other of it on its own. */
  predicate IsFound(ps: seq<Partition>, name: bytes, lun: Option<nat>, i: nat) {
    && i < |ps| && ps[i].name == name && (lun == None || lun == Some(ps[i].lun))
    && (forall j :: 0 <= j < i && ps[j].name == name ==> lun != None && lun != Some(ps[j].lun))
    && (forall j :: i < j < |ps| && ps[j].name == name ==> ps[j].lun != ps[i].lun)
  }

  lemma FoundExactly(ps: seq<Partition>, name: bytes, lun: Option<nat>, i: nat)
    ensures IsFound(ps, name, lun, i)
        <==> i == FirstCalled(ps, name, lun) && i < |ps| && AloneFrom(ps, i, |ps|)
  {
    var k := FirstCalled(ps, name, lun);
    if IsFound(ps, name, lun, i) {
      assert IsCalled(ps[i], name, lun);
      forall j | i < j < |ps| ensures !IsCalled(ps[j], ps[i].name, Some(ps[i].lun)) {}
    }
    if i == k && i < |ps| && AloneFrom(ps, i, |ps|) {
      forall j | 0 <= j < i && ps[j].name == name ensures lun != None && lun != Some(ps[j].lun) {
        assert !IsCalled(ps[j], name, lun);
      }
      forall j | i < j < |ps| && ps[j].name == name ensures ps[j].lun != ps[i].lun {
        assert !IsCalled(ps[j], ps[i].name, Some(ps[i].lun));
      }
    }
  }
}

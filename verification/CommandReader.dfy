/**
 * What a device reads in a command: every value under its own attribute, numbers by strtoul. The
 * commands the host sends, read like this, say what their operations mean.
 */
module CommandReader {
  import opened Bytes
  import opened Options
  import opened Numerals
  import opened Framing
  import opened Ops
  import opened Commands
  import SparseTheorems

  function ReadText(node: Node, name: string): Option<bytes> {
    if name in node.attrs then Some(node.attrs[name]) else None
  }

  function ReadUint(node: Node, name: string): Option<nat> {
    match ReadText(node, name)
    case None => None
    case Some(text) => Some(Strtoul(text, 10).0 % 0x1_0000_0000)
  }

  /** A signed 32-bit number. */
  function ReadInt(node: Node, name: string): Option<int> {
    match ReadUint(node, name)
    case None => None
    case Some(n) => Some(if n < 0x8000_0000 then n else n - 0x1_0000_0000)
  }

  /** Texts are cut at 127 characters. */
  function Cut(text: bytes): bytes { if |text| <= 127 then text else text[..127] }

  /** A text as it is printed, a missing one as well. */
  function Shown(text: Option<bytes>): bytes { Cut(if text.Some? then text.value else SparseTheorems.NULL_TEXT) }

  // ----- One attribute

  lemma UintPrinted(n: nat)
    requires IsUint(n)
    ensures Cut(PrintD(n)) == PrintD(n) && Strtoul(PrintD(n), 10).0 % 0x1_0000_0000 == n
    ensures Cut(Decimal(n)) == Decimal(n) && Strtoul(Decimal(n), 10).0 % 0x1_0000_0000 == n
  {
    hide PrintD, Decimal, Strtoul;
    PrintDIsShort(n);
    StrtoulOfPrintD(n);
    DecimalIsShort(n, 10);
    StrtoulOfDecimal(n, [], 10);
    assert Decimal(n) + [] == Decimal(n);
  }

  lemma IntPrinted(i: int)
    requires IsInt(i)
    ensures Cut(SignedDecimal(i)) == SignedDecimal(i)
    ensures Strtoul(SignedDecimal(i), 10).0 % 0x1_0000_0000 == if i < 0 then i + 0x1_0000_0000 else i
  {
    hide Decimal, Strtoul;
    UintPrinted(if i < 0 then i + 0x1_0000_0000 else i);
  }

  lemma CutIs(text: bytes)
    ensures text[..Min(|text|, 127)] == Cut(text)
  {
  }

  lemma NullText()
    ensures Text("(null)") == SparseTheorems.NULL_TEXT
  {
  }

  lemma ShownIs(text: Option<bytes>)
    ensures Shown(text) == Cut(OrNull(text))
  {
    hide Cut;
    NullText();
  }

  /** A property set is read back, and no other is touched. */
  lemma SetReads(node: Node, name: string, text: bytes)
    ensures SetProp(node, name, text) == Node(node.name, node.attrs[name := Cut(text)])
  {
    CutIs(text);
  }

  lemma SizedAttrs(name: string, sectorSize: nat, num: nat)
    requires IsUint(sectorSize) && IsUint(num)
    ensures Sized(name, sectorSize, num)
         == Node(name, map["SECTOR_SIZE_IN_BYTES" := PrintD(sectorSize), "num_partition_sectors" := PrintD(num)])
  {
    hide PrintD, Cut, SetProp;
    UintPrinted(sectorSize);
    UintPrinted(num);
    SetReads(Node(name, map[]), "SECTOR_SIZE_IN_BYTES", PrintD(sectorSize));
    SetReads(SetProp(Node(name, map[]), "SECTOR_SIZE_IN_BYTES", PrintD(sectorSize)), "num_partition_sectors",
             PrintD(num));
  }

  lemma AtAttrs(node: Node, partition: int, start: bytes)
    requires IsInt(partition)
    ensures At(node, partition, start)
         == Node(node.name, node.attrs["physical_partition_number" := SignedDecimal(partition)]
                                      ["start_sector" := Cut(start)])
  {
    hide SignedDecimal, Cut, SetProp;
    IntPrinted(partition);
    SetReads(node, "physical_partition_number", SignedDecimal(partition));
    SetReads(SetProp(node, "physical_partition_number", SignedDecimal(partition)), "start_sector", start);
  }

  lemma SlotAttrs(node: Node, slot: Option<nat>)
    requires slot.Some? ==> IsUint(slot.value)
    ensures SetSlot(node, slot)
         == if slot.Some? then Node(node.name, node.attrs["slot" := Decimal(slot.value)]) else node
  {
    hide Decimal, Cut, SetProp;
    if slot.Some? {
      UintPrinted(slot.value);
      SetReads(node, "slot", Decimal(slot.value));
    }
  }

  // ----- Commands

  /** A command that goes on from another: only the named attributes differ. */
  ghost predicate GoesOn(node: Node, from: Node, names: set<string>) {
    node.name == from.name && forall other :: other !in names ==> ReadText(node, other) == ReadText(from, other)
  }

  const PLACE := {"SECTOR_SIZE_IN_BYTES", "num_partition_sectors", "physical_partition_number", "start_sector", "slot"}

  /** Where a command goes: sizes, partition, start sector and slot. */
  ghost predicate SaysWhere(node: Node, sectorSize: nat, num: nat, partition: int, start: bytes, slot: Option<nat>) {
    && ReadUint(node, "SECTOR_SIZE_IN_BYTES") == Some(sectorSize)
    && ReadUint(node, "num_partition_sectors") == Some(num)
    && ReadInt(node, "physical_partition_number") == Some(partition)
    && ReadText(node, "start_sector") == Some(start)
    && ReadUint(node, "slot") == slot
  }

  function Where(name: string, sectorSize: nat, num: nat, partition: int, start: bytes, slot: Option<nat>): Node {
    SetSlot(At(Sized(name, sectorSize, num), partition, start), slot)
  }

  lemma WhereAttrs(name: string, sectorSize: nat, num: nat, partition: int, start: bytes, slot: Option<nat>)
    requires IsUint(sectorSize) && IsUint(num) && IsInt(partition) && (slot.Some? ==> IsUint(slot.value))
    ensures var node := Where(name, sectorSize, num, partition, start, slot);
            SaysWhere(node, sectorSize, num, partition, Cut(start), slot)
    ensures GoesOn(Where(name, sectorSize, num, partition, start, slot), Node(name, map[]), PLACE)
  {
    hide PrintD, SignedDecimal, Decimal, Strtoul, Sized, At, SetSlot, Cut;
    SizedAttrs(name, sectorSize, num);
    AtAttrs(Sized(name, sectorSize, num), partition, start);
    SlotAttrs(At(Sized(name, sectorSize, num), partition, start), slot);
    UintPrinted(sectorSize);
    UintPrinted(num);
    IntPrinted(partition);
    if slot.Some? { UintPrinted(slot.value); }
  }

  /** The file's name, where there is one. */
  function Named(node: Node, filename: Option<bytes>): Node {
    if filename.Some? then SetProp(node, "filename", filename.value) else node
  }

  lemma NamedAttrs(node: Node, filename: Option<bytes>)
    requires ReadText(node, "filename").None?
    ensures ReadText(Named(node, filename), "filename") == if filename.Some? then Some(Cut(filename.value)) else None
    ensures GoesOn(Named(node, filename), node, {"filename"})
  {
    hide Cut, SetProp;
    if filename.Some? { SetReads(node, "filename", filename.value); }
  }

  /** What NAND storage is told besides. */
  function ForNand(node: Node, pages: nat, last: nat, partLabel: Option<bytes>): Node {
    var n := SetProp(SetProp(node, "PAGES_PER_BLOCK", PrintD(pages)), "last_sector", PrintD(last));
    if partLabel.Some? then SetProp(n, "label", partLabel.value) else n
  }

  const GEOMETRY := {"PAGES_PER_BLOCK", "last_sector", "label"}

  ghost predicate SaysGeometry(node: Node, pages: Option<nat>, last: Option<nat>, partLabel: Option<bytes>) {
    && ReadUint(node, "PAGES_PER_BLOCK") == pages && ReadUint(node, "last_sector") == last
    && ReadText(node, "label") == partLabel
  }

  lemma ForNandAttrs(node: Node, pages: nat, last: nat, partLabel: Option<bytes>)
    requires IsUint(pages) && IsUint(last) && ReadText(node, "label").None?
    ensures var n := ForNand(node, pages, last, partLabel);
            && SaysGeometry(n, Some(pages), Some(last), if partLabel.Some? then Some(Cut(partLabel.value)) else None)
    ensures GoesOn(ForNand(node, pages, last, partLabel), node, GEOMETRY)
  {
    hide Cut, SetProp, PrintD, Strtoul;
    UintPrinted(pages);
    UintPrinted(last);
    var n1 := SetProp(node, "PAGES_PER_BLOCK", PrintD(pages));
    var n2 := SetProp(n1, "last_sector", PrintD(last));
    SetReads(node, "PAGES_PER_BLOCK", PrintD(pages));
    SetReads(n1, "last_sector", PrintD(last));
    if partLabel.Some? { SetReads(n2, "label", partLabel.value); }
  }

  /** A command that names a file, or not, and says nothing of NAND storage. */
  function WhereNamed(name: string, sectorSize: nat, num: nat, partition: int, start: bytes, slot: Option<nat>,
                      filename: Option<bytes>): Node {
    Named(Where(name, sectorSize, num, partition, start, slot), filename)
  }

  lemma ProgramIs(op: ProgramOp, sectorSize: nat, num: nat, slot: Option<nat>)
    ensures var n := WhereNamed("program", sectorSize, num, op.partition, OrNull(op.startSector), slot, op.filename);
            ProgramNode(op, sectorSize, num, slot)
            == if op.isNand then ForNand(n, op.pagesPerBlock, op.lastSector, op.partLabel) else n
  {
    hide Sized, At, SetSlot, SetProp, PrintD, OrNull;
  }

  lemma NamesApart()
    ensures "filename" !in PLACE && "filename" !in GEOMETRY && PLACE !! GEOMETRY
  {
  }

  lemma StaysWhere(node: Node, from: Node, names: set<string>, sectorSize: nat, num: nat, partition: int, start: bytes,
                   slot: Option<nat>)
    requires GoesOn(node, from, names) && PLACE !! names && SaysWhere(from, sectorSize, num, partition, start, slot)
    ensures SaysWhere(node, sectorSize, num, partition, start, slot)
  {
    hide ReadText, Strtoul;
    assert "SECTOR_SIZE_IN_BYTES" in PLACE && "num_partition_sectors" in PLACE && "physical_partition_number" in PLACE;
    assert "start_sector" in PLACE && "slot" in PLACE;
    hide PLACE;
  }

  lemma StaysUnsaid(node: Node, from: Node, names: set<string>)
    requires GoesOn(node, from, names) && GEOMETRY !! names && SaysGeometry(from, None, None, None)
    ensures SaysGeometry(node, None, None, None)
  {
    hide ReadText, Strtoul;
    assert "PAGES_PER_BLOCK" in GEOMETRY && "last_sector" in GEOMETRY && "label" in GEOMETRY;
    hide GEOMETRY;
  }

  lemma NotSaid(node: Node, name: string, names: set<string>)
    requires GoesOn(node, Node(name, map[]), names) && GEOMETRY !! names && "filename" !in names
    ensures node.name == name && SaysGeometry(node, None, None, None) && ReadText(node, "filename").None?
  {
    hide GEOMETRY;
    assert SaysGeometry(Node(name, map[]), None, None, None);
    StaysUnsaid(node, Node(name, map[]), names);
  }

  lemma SameName(node: Node, from: Node, names: set<string>)
    requires GoesOn(node, from, names)
    ensures node.name == from.name
    ensures "filename" !in names ==> ReadText(node, "filename") == ReadText(from, "filename")
  {
  }

  lemma WhereNamedAttrs(name: string, sectorSize: nat, num: nat, partition: int, start: bytes, slot: Option<nat>,
                        filename: Option<bytes>)
    requires IsUint(sectorSize) && IsUint(num) && IsInt(partition) && (slot.Some? ==> IsUint(slot.value))
    ensures var node := WhereNamed(name, sectorSize, num, partition, start, slot, filename);
            && node.name == name
            && SaysWhere(node, sectorSize, num, partition, Cut(start), slot)
            && ReadText(node, "filename") == (if filename.Some? then Some(Cut(filename.value)) else None)
            && SaysGeometry(node, None, None, None)
  {
    hide Where, Named, Cut, SaysWhere, SaysGeometry, PLACE, GEOMETRY, ReadText, GoesOn;
    var place := Where(name, sectorSize, num, partition, start, slot);
    WhereAttrs(name, sectorSize, num, partition, start, slot);
    NamesApart();
    NotSaid(place, name, PLACE);
    NamedAttrs(place, filename);
    SameName(Named(place, filename), place, {"filename"});
    StaysWhere(Named(place, filename), place, {"filename"}, sectorSize, num, partition, Cut(start), slot);
    StaysUnsaid(Named(place, filename), place, {"filename"});
  }

  /** Every attribute of a program command. */
  lemma ProgramAttributes(op: ProgramOp, sectorSize: nat, num: nat, slot: Option<nat>)
    requires IsUint(sectorSize) && IsUint(num) && IsInt(op.partition) && (slot.Some? ==> IsUint(slot.value))
    requires IsUint(op.pagesPerBlock) && IsUint(op.lastSector)
    ensures var node := ProgramNode(op, sectorSize, num, slot);
            && node.name == "program"
            && SaysWhere(node, sectorSize, num, op.partition, Shown(op.startSector), slot)
            && ReadText(node, "filename") == (if op.filename.Some? then Some(Cut(op.filename.value)) else None)
            && if op.isNand
               then SaysGeometry(node, Some(op.pagesPerBlock), Some(op.lastSector),
                                 if op.partLabel.Some? then Some(Cut(op.partLabel.value)) else None)
               else SaysGeometry(node, None, None, None)
  {
    hide ProgramNode, WhereNamed, ForNand, Cut, SaysWhere, SaysGeometry, PLACE, GEOMETRY, ReadText, GoesOn;
    var start := OrNull(op.startSector);
    var place := WhereNamed("program", sectorSize, num, op.partition, start, slot, op.filename);
    ProgramIs(op, sectorSize, num, slot);
    ShownIs(op.startSector);
    WhereNamedAttrs("program", sectorSize, num, op.partition, start, slot, op.filename);
    if op.isNand {
      var node := ForNand(place, op.pagesPerBlock, op.lastSector, op.partLabel);
      NamesApart();
      Unlabelled(place);
      ForNandAttrs(place, op.pagesPerBlock, op.lastSector, op.partLabel);
      SameName(node, place, GEOMETRY);
      StaysWhere(node, place, GEOMETRY, sectorSize, num, op.partition, Cut(start), slot);
    }
  }

  lemma Unlabelled(node: Node)
    requires SaysGeometry(node, None, None, None)
    ensures ReadText(node, "label").None?
  {
  }

  /** Every attribute of a read command. */
  lemma ReadAttributes(op: ReadOp, sectorSize: nat, slot: Option<nat>)
    requires IsUint(sectorSize) && IsUint(op.numSectors) && IsInt(op.partition) && (slot.Some? ==> IsUint(slot.value))
    ensures var node := ReadNode(op, sectorSize, slot);
            && node.name == "read"
            && SaysWhere(node, sectorSize, op.numSectors, op.partition, Cut(op.startSector), slot)
            && ReadText(node, "filename") == (if op.filename.Some? then Some(Cut(op.filename.value)) else None)
            && SaysGeometry(node, None, None, None)
  {
    hide Sized, At, SetSlot, SetProp, PrintD, SaysWhere, SaysGeometry, ReadText;
    WhereNamedAttrs("read", sectorSize, op.numSectors, op.partition, op.startSector, slot, op.filename);
  }

  // ----- Erase

  function EraseBase(op: EraseOp, sectorSize: nat): Node {
    var n := SetProp(SetProp(Node("erase", map[]), "SECTOR_SIZE_IN_BYTES", PrintD(sectorSize)),
                     "physical_partition_number", SignedDecimal(op.partition));
    if op.numSectors == 0 then n
    else SetProp(SetProp(n, "num_partition_sectors", PrintD(op.numSectors)), "start_sector", OrNull(op.startSector))
  }

  lemma EraseIs(op: EraseOp, sectorSize: nat, slot: Option<nat>)
    ensures var n := SetSlot(EraseBase(op, sectorSize), slot);
            EraseNode(op, sectorSize, slot)
            == if op.isNand then SetProp(n, "PAGES_PER_BLOCK", PrintD(op.pagesPerBlock)) else n
  {
    hide SetProp, PrintD, SignedDecimal, OrNull, SetSlot;
  }

  lemma EraseBaseAttrs(op: EraseOp, sectorSize: nat)
    requires IsUint(sectorSize) && IsInt(op.partition) && IsUint(op.numSectors)
    ensures var attrs := map["SECTOR_SIZE_IN_BYTES" := PrintD(sectorSize),
                             "physical_partition_number" := SignedDecimal(op.partition)];
            EraseBase(op, sectorSize)
            == Node("erase", if op.numSectors == 0 then attrs
                             else attrs["num_partition_sectors" := PrintD(op.numSectors)]
                                       ["start_sector" := Shown(op.startSector)])
  {
    hide PrintD, SignedDecimal, Cut, SetProp, OrNull, Shown;
    UintPrinted(sectorSize);
    IntPrinted(op.partition);
    UintPrinted(op.numSectors);
    ShownIs(op.startSector);
    var n1 := SetProp(Node("erase", map[]), "SECTOR_SIZE_IN_BYTES", PrintD(sectorSize));
    var n2 := SetProp(n1, "physical_partition_number", SignedDecimal(op.partition));
    var n3 := SetProp(n2, "num_partition_sectors", PrintD(op.numSectors));
    SetReads(Node("erase", map[]), "SECTOR_SIZE_IN_BYTES", PrintD(sectorSize));
    SetReads(n1, "physical_partition_number", SignedDecimal(op.partition));
    SetReads(n2, "num_partition_sectors", PrintD(op.numSectors));
    SetReads(n3, "start_sector", OrNull(op.startSector));
  }

  lemma EraseSlotAttrs(op: EraseOp, sectorSize: nat, slot: Option<nat>)
    requires IsUint(sectorSize) && IsInt(op.partition) && IsUint(op.numSectors) && (slot.Some? ==> IsUint(slot.value))
    ensures var node := SetSlot(EraseBase(op, sectorSize), slot);
            && node.name == "erase"
            && ReadUint(node, "SECTOR_SIZE_IN_BYTES") == Some(sectorSize)
            && ReadInt(node, "physical_partition_number") == Some(op.partition)
            && ReadUint(node, "num_partition_sectors") == (if op.numSectors == 0 then None else Some(op.numSectors))
            && ReadText(node, "start_sector") == (if op.numSectors == 0 then None else Some(Shown(op.startSector)))
            && ReadUint(node, "slot") == slot
            && SaysGeometry(node, None, None, None)
  {
    hide PrintD, SignedDecimal, Decimal, Strtoul, EraseBase, SetSlot, Shown;
    EraseBaseAttrs(op, sectorSize);
    SlotAttrs(EraseBase(op, sectorSize), slot);
    UintPrinted(sectorSize);
    IntPrinted(op.partition);
    UintPrinted(op.numSectors);
    if slot.Some? { UintPrinted(slot.value); }
  }

  /** Every attribute of an erase command; without sectors it is the whole partition that is erased. */
  lemma EraseAttributes(op: EraseOp, sectorSize: nat, slot: Option<nat>)
    requires IsUint(sectorSize) && IsInt(op.partition) && IsUint(op.numSectors) && (slot.Some? ==> IsUint(slot.value))
    requires IsUint(op.pagesPerBlock)
    ensures var node := EraseNode(op, sectorSize, slot);
            && node.name == "erase"
            && ReadUint(node, "SECTOR_SIZE_IN_BYTES") == Some(sectorSize)
            && ReadInt(node, "physical_partition_number") == Some(op.partition)
            && ReadUint(node, "num_partition_sectors") == (if op.numSectors == 0 then None else Some(op.numSectors))
            && ReadText(node, "start_sector") == (if op.numSectors == 0 then None else Some(Shown(op.startSector)))
            && ReadUint(node, "slot") == slot
            && SaysGeometry(node, if op.isNand then Some(op.pagesPerBlock) else None, None, None)
  {
    hide EraseNode, EraseBase, SetSlot, SetProp, PrintD, Strtoul, Shown;
    EraseIs(op, sectorSize, slot);
    EraseSlotAttrs(op, sectorSize, slot);
    if op.isNand {
      UintPrinted(op.pagesPerBlock);
      SetReads(SetSlot(EraseBase(op, sectorSize), slot), "PAGES_PER_BLOCK", PrintD(op.pagesPerBlock));
    }
  }

  // ----- Patch

  lemma PatchAttrs(op: PatchOp, filename: bytes)
    requires IsInt(op.partition) && IsUint(op.sectorSize) && IsUint(op.byteOffset) && IsUint(op.sizeInBytes)
    ensures PatchNode(op, filename, None)
         == Node("patch", map["SECTOR_SIZE_IN_BYTES" := PrintD(op.sectorSize), "byte_offset" := PrintD(op.byteOffset),
                              "filename" := Cut(filename), "size_in_bytes" := PrintD(op.sizeInBytes),
                              "physical_partition_number" := SignedDecimal(op.partition),
                              "start_sector" := Shown(op.startSector), "value" := Shown(op.value)])
  {
    hide PrintD, SignedDecimal, Cut, SetProp, OrNull, Shown, At;
    UintPrinted(op.sectorSize);
    UintPrinted(op.byteOffset);
    UintPrinted(op.sizeInBytes);
    ShownIs(op.startSector);
    ShownIs(op.value);
    var n1 := SetProp(Node("patch", map[]), "SECTOR_SIZE_IN_BYTES", PrintD(op.sectorSize));
    var n2 := SetProp(n1, "byte_offset", PrintD(op.byteOffset));
    var n3 := SetProp(n2, "filename", filename);
    var n4 := SetProp(n3, "size_in_bytes", PrintD(op.sizeInBytes));
    SetReads(Node("patch", map[]), "SECTOR_SIZE_IN_BYTES", PrintD(op.sectorSize));
    SetReads(n1, "byte_offset", PrintD(op.byteOffset));
    SetReads(n2, "filename", filename);
    SetReads(n3, "size_in_bytes", PrintD(op.sizeInBytes));
    AtAttrs(n4, op.partition, OrNull(op.startSector));
    SetReads(At(n4, op.partition, OrNull(op.startSector)), "value", OrNull(op.value));
  }

  lemma PatchIs(op: PatchOp, filename: bytes, slot: Option<nat>)
    ensures PatchNode(op, filename, slot) == SetSlot(PatchNode(op, filename, None), slot)
  {
    hide PrintD, SetProp, OrNull, At;
  }

  /** Every attribute of a patch command. */
  lemma PatchAttributes(op: PatchOp, filename: bytes, slot: Option<nat>)
    requires IsInt(op.partition) && IsUint(op.sectorSize) && IsUint(op.byteOffset) && IsUint(op.sizeInBytes)
    requires slot.Some? ==> IsUint(slot.value)
    ensures var node := PatchNode(op, filename, slot);
            && node.name == "patch"
            && ReadUint(node, "SECTOR_SIZE_IN_BYTES") == Some(op.sectorSize)
            && ReadUint(node, "byte_offset") == Some(op.byteOffset)
            && ReadText(node, "filename") == Some(Cut(filename))
            && ReadUint(node, "size_in_bytes") == Some(op.sizeInBytes)
            && ReadInt(node, "physical_partition_number") == Some(op.partition)
            && ReadText(node, "start_sector") == Some(Shown(op.startSector))
            && ReadText(node, "value") == Some(Shown(op.value))
            && ReadUint(node, "slot") == slot
  {
    hide PrintD, SignedDecimal, Decimal, Strtoul, PatchNode, SetSlot, Shown, Cut;
    PatchIs(op, filename, slot);
    PatchAttrs(op, filename);
    SlotAttrs(PatchNode(op, filename, None), slot);
    UintPrinted(op.sectorSize);
    UintPrinted(op.byteOffset);
    UintPrinted(op.sizeInBytes);
    IntPrinted(op.partition);
    if slot.Some? { UintPrinted(slot.value); }
  }

  // ----- Configure

  /** Every attribute of a configure command. */
  lemma ConfigureAttributes(storage: StorageType, payloadSize: nat)
    requires storage != Unknown && IsUint(payloadSize)
    ensures var node := ConfigureNode(EncodeStorageType(storage).value, payloadSize, false);
            && node.name == "configure"
            && ReadUint(node, "MaxPayloadSizeToTargetInBytes") == Some(payloadSize)
            && ReadText(node, "Verbose") == Some(Text("0")) && ReadText(node, "ZlpAwareHost") == Some(Text("1"))
            && ReadText(node, "SkipStorageInit") == Some(Text("0"))
            && (storage.Emmc? ==> ReadText(node, "MemoryName") == Some(Text("emmc")))
            && (storage.Nand? ==> ReadText(node, "MemoryName") == Some(Text("nand")))
            && (storage.Ufs? ==> ReadText(node, "MemoryName") == Some(Text("ufs")))
            && (storage.Nvme? ==> ReadText(node, "MemoryName") == Some(Text("nvme")))
            && (storage.Spinor? ==> ReadText(node, "MemoryName") == Some(Text("spinor")))
  {
    hide Decimal, Strtoul, Text, ConfigureNode;
    UintPrinted(payloadSize);
    ConfigureAttrs(EncodeStorageType(storage).value, payloadSize);
  }

  lemma ConfigureAttrs(memoryName: string, payloadSize: nat)
    requires IsUint(payloadSize) && |memoryName| <= 127
    ensures ConfigureNode(memoryName, payloadSize, false)
         == Node("configure", map["MemoryName" := Text(memoryName),
                                  "MaxPayloadSizeToTargetInBytes" := Decimal(payloadSize), "Verbose" := Text("0"),
                                  "ZlpAwareHost" := Text("1"), "SkipStorageInit" := Text("0")])
  {
    hide Decimal, Strtoul, Text, SetProp;
    UintPrinted(payloadSize);
    var n1 := SetProp(Node("configure", map[]), "MemoryName", Text(memoryName));
    var n2 := SetProp(n1, "MaxPayloadSizeToTargetInBytes", Decimal(payloadSize));
    var n3 := SetProp(n2, "Verbose", Text("0"));
    var n4 := SetProp(n3, "ZlpAwareHost", Text("1"));
    SetReads(Node("configure", map[]), "MemoryName", Text(memoryName));
    SetReads(n1, "MaxPayloadSizeToTargetInBytes", Decimal(payloadSize));
    SetReads(n2, "Verbose", Text("0"));
    SetReads(n3, "ZlpAwareHost", Text("1"));
    SetReads(n4, "SkipStorageInit", Text("0"));
  }
}

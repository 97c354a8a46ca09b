/** The commands the host writes, as attribute records. */
module Commands {
  import opened Bytes
  import opened Options
  import opened Numerals
  import opened Framing
  import opened Devices
  import opened Ops

  /** `xml_setpropf`: the text is cut at 127 characters. */
  function SetProp(node: Node, name: string, text: bytes): Node {
    node.(attrs := node.attrs[name := text[..Min(|text|, 127)]])
  }

  function SetSlot(node: Node, slot: Option<nat>): Node {
    if slot.Some? then SetProp(node, "slot", Decimal(slot.value)) else node
  }

  /** printf's "%s". */
  function OrNull(text: Option<bytes>): bytes {
    if text.Some? then text.value else Text("(null)")
  }

  function Sized(name: string, sectorSize: nat, num: nat): Node {
    SetProp(SetProp(Node(name, map[]), "SECTOR_SIZE_IN_BYTES", PrintD(sectorSize)), "num_partition_sectors",
            PrintD(num))
  }

  function At(node: Node, partition: int, start: bytes): Node {
    SetProp(SetProp(node, "physical_partition_number", SignedDecimal(partition)), "start_sector", start)
  }

  function ConfigureNode(memoryName: string, payloadSize: nat, skipStorageInit: bool): Node {
    var n1 := SetProp(Node("configure", map[]), "MemoryName", Text(memoryName));
    var n2 := SetProp(n1, "MaxPayloadSizeToTargetInBytes", Decimal(payloadSize));
    var n3 := SetProp(SetProp(n2, "Verbose", Text("0")), "ZlpAwareHost", Text("1"));
    SetProp(n3, "SkipStorageInit", Text(if skipStorageInit then "1" else "0"))
  }

  function ProgramNode(op: ProgramOp, sectorSize: nat, num: nat, slot: Option<nat>): Node {
    var n1 := SetSlot(At(Sized("program", sectorSize, num), op.partition, OrNull(op.startSector)), slot);
    var n2 := if op.filename.Some? then SetProp(n1, "filename", op.filename.value) else n1;
    if !op.isNand then n2
    else
      var n3 := SetProp(SetProp(n2, "PAGES_PER_BLOCK", PrintD(op.pagesPerBlock)), "last_sector", PrintD(op.lastSector));
      if op.partLabel.Some? then SetProp(n3, "label", op.partLabel.value) else n3
  }

  function EraseNode(op: EraseOp, sectorSize: nat, slot: Option<nat>): Node {
    var n1 := SetProp(Node("erase", map[]), "SECTOR_SIZE_IN_BYTES", PrintD(sectorSize));
    var n2 := SetProp(n1, "physical_partition_number", SignedDecimal(op.partition));
    var n3 := if op.numSectors == 0 then n2
              else SetProp(SetProp(n2, "num_partition_sectors", PrintD(op.numSectors)), "start_sector",
                           OrNull(op.startSector));
    var n4 := SetSlot(n3, slot);
    if op.isNand then SetProp(n4, "PAGES_PER_BLOCK", PrintD(op.pagesPerBlock)) else n4
  }

  function PatchNode(op: PatchOp, filename: bytes, slot: Option<nat>): Node {
    var n1 := SetProp(Node("patch", map[]), "SECTOR_SIZE_IN_BYTES", PrintD(op.sectorSize));
    var n2 := SetProp(SetProp(n1, "byte_offset", PrintD(op.byteOffset)), "filename", filename);
    var n3 := SetProp(n2, "size_in_bytes", PrintD(op.sizeInBytes));
    var n4 := SetProp(At(n3, op.partition, OrNull(op.startSector)), "value", OrNull(op.value));
    SetSlot(n4, slot)
  }

  datatype ReadOp = ReadOp(partition: int, sectorSize: nat, startSector: bytes, numSectors: nat,
                           filename: Option<bytes>)

  function ReadNode(op: ReadOp, sectorSize: nat, slot: Option<nat>): Node {
    var n := SetSlot(At(Sized("read", sectorSize, op.numSectors), op.partition, op.startSector), slot);
    if op.filename.Some? then SetProp(n, "filename", op.filename.value) else n
  }

  // ----- The sizes a simulator reads

  lemma PrintDIsShort(n: nat)
    requires n < UINT32_RANGE
    ensures |PrintD(n)| <= 127
  {
    DecimalIsShort(if n < 0x8000_0000 then n else UINT32_RANGE - n, 10);
  }

  lemma {:induction false} DecimalIsShort(n: nat, digits: nat)
    requires digits >= 1 && n < Power10(digits)
    ensures |Decimal(n)| <= digits
  {
    if n >= 10 { DecimalIsShort(n / 10, digits - 1); }
  }

  function Power10(n: nat): nat { if n == 0 then 1 else 10 * Power10(n - 1) }

  /** However a command goes on, the size it announces is the size meant. */
  lemma SizeRead(node: Node, sectorSize: nat, num: nat)
    requires sectorSize < UINT32_RANGE && num < UINT32_RANGE
    requires "SECTOR_SIZE_IN_BYTES" in node.attrs && node.attrs["SECTOR_SIZE_IN_BYTES"] == PrintD(sectorSize)
    requires "num_partition_sectors" in node.attrs && node.attrs["num_partition_sectors"] == PrintD(num)
    ensures UintAttr(node, "num_partition_sectors") * UintAttr(node, "SECTOR_SIZE_IN_BYTES") == num * sectorSize
  {
    StrtoulOfPrintD(sectorSize);
    StrtoulOfPrintD(num);
  }

  lemma SizedNode(name: string, sectorSize: nat, num: nat)
    requires sectorSize < UINT32_RANGE && num < UINT32_RANGE
    ensures var attrs := Sized(name, sectorSize, num).attrs;
            && "SECTOR_SIZE_IN_BYTES" in attrs && attrs["SECTOR_SIZE_IN_BYTES"] == PrintD(sectorSize)
            && "num_partition_sectors" in attrs && attrs["num_partition_sectors"] == PrintD(num)
  {
    PrintDIsShort(sectorSize);
    PrintDIsShort(num);
  }

  lemma ProgramSize(op: ProgramOp, sectorSize: nat, num: nat, slot: Option<nat>)
    requires sectorSize < UINT32_RANGE && num < UINT32_RANGE
    ensures var node := ProgramNode(op, sectorSize, num, slot);
            node.name == "program"
            && UintAttr(node, "num_partition_sectors") * UintAttr(node, "SECTOR_SIZE_IN_BYTES") == num * sectorSize
  {
    hide Sized, PrintD, UintAttr;
    SizedNode("program", sectorSize, num);
    assert Sized("program", sectorSize, num).name == "program" by { SizedName("program", sectorSize, num); }
    SizeRead(ProgramNode(op, sectorSize, num, slot), sectorSize, num);
  }

  lemma SizedName(name: string, sectorSize: nat, num: nat)
    ensures Sized(name, sectorSize, num).name == name
  {
  }

  lemma ReadSize(op: ReadOp, sectorSize: nat, slot: Option<nat>)
    requires sectorSize < UINT32_RANGE && op.numSectors < UINT32_RANGE
    ensures var node := ReadNode(op, sectorSize, slot);
            node.name == "read"
            && UintAttr(node, "num_partition_sectors") * UintAttr(node, "SECTOR_SIZE_IN_BYTES")
                == op.numSectors * sectorSize
  {
    hide Sized, PrintD, UintAttr;
    SizedNode("read", sectorSize, op.numSectors);
    SizedName("read", sectorSize, op.numSectors);
    SizeRead(ReadNode(op, sectorSize, slot), sectorSize, op.numSectors);
  }
}

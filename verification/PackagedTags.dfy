/** One operation, written as a tag of an installer package and read back. */
module PackagedTags {
  import opened Bytes
  import opened Options
  import opened Numerals
  import opened Files
  import opened Programming
  import opened Ops
  import opened ProgramLoad
  import opened Meaning
  import opened SparseTheorems
  import opened ZipperSpec

  // ----- Numbers

  lemma UnsignedReadsBack(tag: Tag, attr: string, n: nat)
    requires IsUint(n) && attr in tag.attrs && tag.attrs[attr] == Decimal(n)
    ensures AttrUnsigned(tag, attr) == Some(n)
  {
    hide Strtoul, Decimal;
    StrtoulOfDecimal(n, [], 0);
    assert Decimal(n) + [] == Decimal(n);
  }

  lemma SignedReadsBack(tag: Tag, attr: string, i: int)
    requires IsInt(i) && attr in tag.attrs && tag.attrs[attr] == SignedDecimal(i)
    ensures AttrUnsigned(tag, attr).Some? && AsInt(AttrUnsigned(tag, attr).value) == i
  {
    hide Strtoul, Decimal;
    if i >= 0 {
      StrtoulOfDecimal(i, [], 0);
      assert Decimal(i) + [] == Decimal(i);
    } else {
      StrtoulOfNegative(-i);
    }
  }

  lemma StrtoulOfNegative(m: nat)
    requires 0 < m < 0x1_0000_0000
    ensures Strtoul([45] + Decimal(m), 0).0 % 0x1_0000_0000 == 0x1_0000_0000 - m
  {
    hide Convert, Decimal;
    var d := Decimal(m);
    var s := [45] + d;
    assert s[1] == d[0];
    assert SpacesEnd(s, 0) == 0;
    ConvertNegative(m);
    assert UINT64_RANGE - m == 0xFFFF_FFFF * 0x1_0000_0000 + (0x1_0000_0000 - m);
  }

  lemma StringReadsBack(tag: Tag, attr: string, text: bytes)
    requires attr in tag.attrs && tag.attrs[attr] == text
    ensures AttrString(tag, attr) == Some(if text == [] then None else Some(text))
  {
  }

  // ----- Operations as the loaders make them

  /** Strings are absent rather than empty. */
  predicate IsString(s: Option<bytes>) { s != Some([]) }

  /** The fields hold what their C types and the attribute readers allow. */
  predicate WellFormed(op: Op) {
    InRange(op)
    && match op
       case Configure(_) => true
       case Program(p) => IsString(p.startSector) && IsString(p.partLabel)
       case Erase(e) => IsString(e.startSector)
       case Patch(q) => IsString(q.startSector) && IsString(q.value) && IsString(q.what)
  }

  /** Program and erase tags that a loader accepts for a storage: labelled, of the storage's kind, not empty. */
  predicate Readable(isNand: bool, op: Op) {
    match op
    case Program(p) => p.filename.None? || (p.partLabel.Some? && p.isNand == isNand)
    case Erase(e) => e.numSectors > 0 && (isNand ==> e.isNand)
    case _ => true
  }

  /** Operations that mean the same in a package, whatever the files hold. */
  predicate Faithful(isNand: bool, op: Op) {
    match op
    case Program(p) => p.filename.None? || (p.startSector.Some? && (!p.sparse ==> p.fileOffset == 0))
    case Erase(e) => e.startSector.Some? && e.isNand == isNand
    case Patch(q) => q.filename == Some(Text(DISK)) ==> q.startSector.Some?
    case Configure(_) => true
  }

  /** Operations that mean the same in a package, with these files. */
  predicate Kept(src: Sources, storageSize: nat, isNand: bool, op: Op) {
    match op
    case Program(p) => p.filename.None? || (p.startSector.Some? && ImageKept(src, storageSize, p))
    case Erase(e) => e.startSector.Some? && e.isNand == isNand
    case Patch(q) => q.filename == Some(Text(DISK)) ==> q.startSector.Some?
    case Configure(_) => true
  }

  /** A plain image that is the same from its start as from its offset. */
  predicate ImageKept(src: Sources, storageSize: nat, op: ProgramOp)
    requires op.filename.Some?
  {
    var ss := Effective(op.sectorSize, storageSize);
    !op.sparse && op.filename.value in src.files && ss > 0 ==>
      var content := src.files[op.filename.value];
      var len := ImageSectors(op.(sectorSize := ss), |content|) * ss;
      Padded(content, op.fileOffset * ss, len) == Padded(content, 0, len)
  }

  // ----- Programs

  /** The operation that is read back for a program. */
  function PackagedProgram(op: ProgramOp, name: bytes, offset: nat): ProgramOp {
    ProgramOp(op.partition, op.sectorSize, true, Some(name), Some(StartAttr(op.startSector)), op.numSectors,
              if op.isNand then op.pagesPerBlock else 0, if op.isNand then 0 else offset, op.partLabel, false,
              if op.isNand then op.lastSector else 0, op.isNand, 0, 0, 0)
  }

  lemma ProgramTagAttrs(op: ProgramOp, name: bytes, offset: nat)
    ensures var t := ProgramTag(op, name, offset);
            && t.name == "program" && "sparse" !in t.attrs
            && ("label" in t.attrs <==> op.partLabel.Some?) && ("PAGES_PER_BLOCK" in t.attrs <==> op.isNand)
            && ("last_sector" in t.attrs <==> op.isNand) && ("file_sector_offset" in t.attrs <==> !op.isNand)
    ensures var a := ProgramTag(op, name, offset).attrs;
            && "SECTOR_SIZE_IN_BYTES" in a && a["SECTOR_SIZE_IN_BYTES"] == Decimal(op.sectorSize)
            && "filename" in a && a["filename"] == name
            && "num_partition_sectors" in a && a["num_partition_sectors"] == Decimal(op.numSectors)
            && "physical_partition_number" in a && a["physical_partition_number"] == SignedDecimal(op.partition)
            && "start_sector" in a && a["start_sector"] == StartAttr(op.startSector)
    ensures var a := ProgramTag(op, name, offset).attrs;
            && (op.partLabel.Some? ==> a["label"] == op.partLabel.value)
            && (op.isNand ==>
                a["PAGES_PER_BLOCK"] == Decimal(op.pagesPerBlock) && a["last_sector"] == Decimal(op.lastSector))
            && (!op.isNand ==> a["file_sector_offset"] == Decimal(offset))
  {
    hide Decimal, SignedDecimal;
  }

  /** A program tag is read back exactly when it is readable, and then as the packaged program. */
  lemma ProgramReadsBack(place: Place, op: ProgramOp, name: bytes, offset: nat, isNand: bool)
    requires place.Archive? && name != [] && name in place.files
    requires WellFormed(Program(op)) && op.filename.Some? && IsUint(offset)
    ensures ExpandProgram(place, ProgramTag(op, name, offset), isNand, false)
         == if Readable(isNand, Program(op)) then Some([PackagedProgram(op, name, offset)]) else None
  {
    hide Decimal, SignedDecimal, AttrUnsigned, AttrString, ProgramTag;
    var t := ProgramTag(op, name, offset);
    ProgramTagAttrs(op, name, offset);
    UnsignedReadsBack(t, "SECTOR_SIZE_IN_BYTES", op.sectorSize);
    UnsignedReadsBack(t, "num_partition_sectors", op.numSectors);
    SignedReadsBack(t, "physical_partition_number", op.partition);
    StringReadsBack(t, "filename", name);
    StringReadsBack(t, "start_sector", StartAttr(op.startSector));
    LabelReadsBack(t, op.partLabel);
    GeometryReadsBack(t, op, offset);
    assert !AttrBool(t, "sparse");
  }

  lemma LabelReadsBack(t: Tag, name: Option<bytes>)
    requires IsString(name)
    requires ("label" in t.attrs <==> name.Some?) && (name.Some? ==> t.attrs["label"] == name.value)
    ensures AttrString(t, "label") == if name.Some? then Some(name) else None
  {
  }

  lemma GeometryReadsBack(t: Tag, op: ProgramOp, offset: nat)
    requires IsUint(op.pagesPerBlock) && IsUint(op.lastSector) && IsUint(offset)
    requires ("PAGES_PER_BLOCK" in t.attrs <==> op.isNand) && ("last_sector" in t.attrs <==> op.isNand)
    requires "file_sector_offset" in t.attrs <==> !op.isNand
    requires op.isNand ==>
              t.attrs["PAGES_PER_BLOCK"] == Decimal(op.pagesPerBlock)
                  && t.attrs["last_sector"] == Decimal(op.lastSector)
    requires !op.isNand ==> t.attrs["file_sector_offset"] == Decimal(offset)
    ensures AttrUnsigned(t, "PAGES_PER_BLOCK") == if op.isNand then Some(op.pagesPerBlock) else None
    ensures AttrUnsigned(t, "last_sector") == if op.isNand then Some(op.lastSector) else None
    ensures AttrUnsigned(t, "file_sector_offset") == if op.isNand then None else Some(offset)
  {
    hide Strtoul, Decimal;
    if op.isNand {
      UnsignedReadsBack(t, "PAGES_PER_BLOCK", op.pagesPerBlock);
      UnsignedReadsBack(t, "last_sector", op.lastSector);
    } else {
      UnsignedReadsBack(t, "file_sector_offset", offset);
    }
  }

  // ----- Erases and patches

  lemma EraseReadsBack(op: EraseOp, isNand: bool)
    requires WellFormed(Erase(op))
    ensures ReadErase(EraseTag(op), isNand)
         == if Readable(isNand, Erase(op))
            then Some(EraseOp(op.partition, op.sectorSize, Some(StartAttr(op.startSector)), op.numSectors, isNand,
                              if isNand then op.pagesPerBlock else 0))
            else None
  {
    hide Decimal, SignedDecimal, AttrUnsigned, AttrString;
    var t := EraseTag(op);
    UnsignedReadsBack(t, "SECTOR_SIZE_IN_BYTES", op.sectorSize);
    UnsignedReadsBack(t, "num_partition_sectors", op.numSectors);
    SignedReadsBack(t, "physical_partition_number", op.partition);
    StringReadsBack(t, "start_sector", StartAttr(op.startSector));
    if op.isNand {
      UnsignedReadsBack(t, "PAGES_PER_BLOCK", op.pagesPerBlock);
    } else {
      assert AttrUnsigned(t, "PAGES_PER_BLOCK").None? by { Absent(t, "PAGES_PER_BLOCK"); }
    }
  }

  lemma Absent(t: Tag, attr: string)
    requires attr !in t.attrs
    ensures AttrUnsigned(t, attr).None?
  {
  }

  lemma PatchReadsBack(op: PatchOp)
    requires WellFormed(Patch(op)) && op.filename == Some(Text(DISK))
    ensures LoadPatch(PatchTag(op)) == Some([Patch(op.(startSector := Some(StartAttr(op.startSector))))])
  {
    hide Decimal, SignedDecimal, AttrUnsigned, AttrString;
    var t := PatchTag(op);
    UnsignedReadsBack(t, "SECTOR_SIZE_IN_BYTES", op.sectorSize);
    UnsignedReadsBack(t, "byte_offset", op.byteOffset);
    SignedReadsBack(t, "physical_partition_number", op.partition);
    UnsignedReadsBack(t, "size_in_bytes", op.sizeInBytes);
    StringReadsBack(t, "filename", Text(DISK));
    StringReadsBack(t, "start_sector", StartAttr(op.startSector));
    StringReadsBack(t, "value", OrEmpty(op.value));
    StringReadsBack(t, "what", OrEmpty(op.what));
    assert |Text(DISK)| == 4;
  }

  // ----- What survives

  /** A plain image means the same in a package, whatever it holds, exactly when it is used from its start. */
  lemma PlainImageIff(op: ProgramOp, ss: nat)
    requires 0 < ss && !op.sparse && op.sectorSize == ss && !op.fromZip
    ensures (forall content: bytes :: ProgramData(op, content) == ProgramData(op.(fromZip := true), content))
        <==> op.fileOffset == 0
  {
    if op.fileOffset == 0 {
      forall content: bytes ensures ProgramData(op, content) == ProgramData(op.(fromZip := true), content) {}
    } else {
      var content: bytes := [1];
      OneSector(op);
      assert op.fileOffset * ss >= 1 by { AtLeast(op.fileOffset, ss); }
      PaddedAt(content, op.fileOffset * ss, 1 * ss, 0);
      PaddedAt(content, 0, 1 * ss, 0);
      assert ProgramData(op, content).value[0] != ProgramData(op.(fromZip := true), content).value[0];
    }
  }

  lemma OneSector(op: ProgramOp)
    requires 0 < op.sectorSize
    ensures ImageSectors(op, 1) == 1
  {
    assert (1 + op.sectorSize - 1) / op.sectorSize == 1;
  }

  /** An image file of exactly the size that is programmed. */
  lemma WholeSectors(op: ProgramOp, num: nat)
    requires 0 < op.sectorSize && op.numSectors == num && num < 0x1_0000_0000
    ensures ImageSectors(op, num * op.sectorSize) == num
  {
    var ss := op.sectorSize;
    assert num * ss + ss - 1 == num * ss + (ss - 1);
    DivideRest(num, ss - 1, ss);
  }

  lemma DivideRest(n: nat, r: nat, d: nat)
    requires r < d
    ensures (n * d + r) / d == n
  {
    var q, m := (n * d + r) / d, (n * d + r) % d;
    assert (q - n) * d == r - m;
    if q > n { AtLeast(q - n, d); }
    if q < n { AtLeast(n - q, d); }
  }

  /** The member that an operation's image becomes. */
  function MemberOf(op: ProgramOp, content: bytes): bytes
    requires 0 < op.sectorSize
  {
    if !op.sparse then content
    else if op.chunkType == CHUNK_TYPE_RAW then Padded(content, op.sparseOffset, op.numSectors * op.sectorSize)
    else FillPattern(op.fillValue, op.numSectors * op.sectorSize)
  }

  predicate Carries(op: ProgramOp, content: bytes, member: bytes)
    requires 0 < op.sectorSize
  {
    member == MemberOf(op, content)
  }

  predicate KnownChunk(op: ProgramOp) {
    op.sparse ==> op.sectorSize > 0 && (op.chunkType == CHUNK_TYPE_RAW || op.chunkType == CHUNK_TYPE_FILL)
  }

  /** The packaged program writes what the program wrote. */
  lemma ProgramSurvives(src: Sources, archive: map<bytes, bytes>, storageSize: nat, op: ProgramOp, name: bytes)
    requires WellFormed(Program(op)) && op.filename.Some? && !op.fromZip && KnownChunk(op)
    requires op.filename.value in src.files && name in archive
    requires op.startSector.Some? && (!op.sparse ==> op.fileOffset == 0)
    requires Effective(op.sectorSize, storageSize) > 0 ==>
               Carries(op.(sectorSize := Effective(op.sectorSize, storageSize)), src.files[op.filename.value],
                       archive[name])
    ensures ProgramActions(Sources(src.files, archive), storageSize,
                           PackagedProgram(op, name, if op.sparse then 0 else op.fileOffset))
         == ProgramActions(src, storageSize, op)
  {
    hide Padded, FillPattern;
    var ss := Effective(op.sectorSize, storageSize);
    if ss > 0 {
      var p := op.(sectorSize := ss);
      var packaged := PackagedProgram(op, name, if op.sparse then 0 else op.fileOffset).(sectorSize := ss);
      var content, member := src.files[op.filename.value], archive[name];
      assert SameWrite(p, packaged, content, member) by { DataSurvives(p, packaged, content, member); }
    }
  }

  /** The packaged program's one action is the program's exactly when the program is kept. */
  lemma ProgramKeptIff(src: Sources, archive: map<bytes, bytes>, storageSize: nat, op: ProgramOp, name: bytes,
                       isNand: bool)
    requires WellFormed(Program(op)) && op.filename.Some? && !op.fromZip && KnownChunk(op)
    requires op.filename.value in src.files && name in archive
    requires Effective(op.sectorSize, storageSize) > 0
    requires Carries(op.(sectorSize := Effective(op.sectorSize, storageSize)), src.files[op.filename.value],
                     archive[name])
    ensures var packaged := ProgramActions(Sources(src.files, archive), storageSize,
                                           PackagedProgram(op, name, if op.sparse then 0 else op.fileOffset));
            && SameSize(packaged, ProgramActions(src, storageSize, op))
            && (packaged == ProgramActions(src, storageSize, op) <==> Kept(src, storageSize, isNand, Program(op)))
  {
    hide Padded, FillPattern, ImageSectors;
    var ss := Effective(op.sectorSize, storageSize);
    var p := op.(sectorSize := ss);
    var offset := if op.sparse then 0 else op.fileOffset;
    var packaged := PackagedProgram(op, name, offset).(sectorSize := ss);
    var content, member := src.files[op.filename.value], archive[name];
    if op.sparse {
      assert SameWrite(p, packaged, content, member) by { DataSurvives(p, packaged, content, member); }
    } else {
      assert SectorsOf(packaged, member) == SectorsOf(p, content) by { SameCount(op, name, offset, ss, |content|); }
    }
  }

  lemma SameCount(op: ProgramOp, name: bytes, offset: nat, ss: nat, size: nat)
    requires 0 < ss
    ensures ImageSectors(PackagedProgram(op, name, offset).(sectorSize := ss), size)
         == ImageSectors(op.(sectorSize := ss), size)
  {
  }

  /** Both succeed, with as many actions. */
  predicate SameSize(a: Option<seq<Action>>, b: Option<seq<Action>>) {
    a.Some? && b.Some? && |a.value| == |b.value|
  }

  predicate SameWrite(p: ProgramOp, q: ProgramOp, content: bytes, member: bytes)
    requires 0 < p.sectorSize && 0 < q.sectorSize
  {
    ProgramData(q, member) == ProgramData(p, content) && SectorsOf(q, member) == SectorsOf(p, content)
  }

  lemma DataSurvives(p: ProgramOp, q: ProgramOp, content: bytes, member: bytes)
    requires 0 < p.sectorSize && q.sectorSize == p.sectorSize && q.numSectors == p.numSectors < 0x1_0000_0000
    requires KnownChunk(p) && !p.fromZip && q.fromZip && !q.sparse && (!p.sparse ==> p.fileOffset == 0)
    requires Carries(p, content, member)
    ensures SameWrite(p, q, content, member)
  {
    if p.sparse {
      hide Padded, FillPattern, ImageSectors;
      assert |member| == p.numSectors * p.sectorSize;
      WholeSectors(q, p.numSectors);
      WholeFile(member);
    } else {
      hide Padded, FillPattern;
      assert p.fileOffset * p.sectorSize == 0;
    }
  }

  lemma WholeFile(content: bytes)
    ensures Padded(content, 0, |content|) == content
  {
  }

  // ----- Exactly what survives

  /** Whether an image means the same before and after it is packaged. */
  predicate Survives(op: ProgramOp, storageSize: nat, name: bytes, content: bytes)
    requires op.filename.Some? && 0 < Effective(op.sectorSize, storageSize)
  {
    var member := MemberOf(op.(sectorSize := Effective(op.sectorSize, storageSize)), content);
    var src := Sources(map[op.filename.value := content], map[name := member]);
    ProgramActions(src, storageSize, PackagedProgram(op, name, if op.sparse then 0 else op.fileOffset))
    == ProgramActions(src, storageSize, op)
  }

  /** A program means the same in a package, whatever its image holds, exactly when it is faithful. */
  lemma ProgramSurvivesIff(op: ProgramOp, storageSize: nat, name: bytes)
    requires WellFormed(Program(op)) && op.filename.Some? && !op.fromZip && KnownChunk(op)
    requires 0 < Effective(op.sectorSize, storageSize)
    ensures (forall content: bytes :: Survives(op, storageSize, name, content)) <==> Faithful(op.isNand, Program(op))
  {
    hide Padded, FillPattern, ProgramActions, WellFormed;
    var ss := Effective(op.sectorSize, storageSize);
    if Faithful(op.isNand, Program(op)) {
      forall content: bytes ensures Survives(op, storageSize, name, content) {
        var src := Sources(map[op.filename.value := content], map[name := MemberOf(op.(sectorSize := ss), content)]);
        ProgramSurvives(src, src.archive, storageSize, op, name);
      }
    } else if op.startSector.None? {
      StartLost(op, storageSize, name);
    } else {
      OffsetLost(op, storageSize, name);
    }
  }

  lemma StartLost(op: ProgramOp, storageSize: nat, name: bytes)
    requires op.filename.Some? && !op.fromZip && KnownChunk(op) && op.startSector.None?
    requires 0 < Effective(op.sectorSize, storageSize)
    ensures !Survives(op, storageSize, name, [])
  {
    hide Padded, FillPattern, ImageSectors;
  }

  lemma OffsetLost(op: ProgramOp, storageSize: nat, name: bytes)
    requires op.filename.Some? && !op.fromZip && !op.sparse && op.fileOffset > 0
    requires 0 < Effective(op.sectorSize, storageSize)
    ensures !Survives(op, storageSize, name, [1])
  {
    hide Padded, FillPattern, ImageSectors;
    var ss := Effective(op.sectorSize, storageSize);
    var p := op.(sectorSize := ss);
    var q := PackagedProgram(op, name, op.fileOffset).(sectorSize := ss);
    OneSector(p);
    OneSector(q);
    assert op.fileOffset * ss >= 1 by { AtLeast(op.fileOffset, ss); }
    PaddedAt([1], op.fileOffset * ss, 1 * ss, 0);
    PaddedAt([1], 0, 1 * ss, 0);
    assert ProgramData(p, [1]).value[0] != ProgramData(q, [1]).value[0];
  }

  /** An erase that is read back means the same exactly when it is faithful. */
  lemma EraseSurvivesIff(src: Sources, storageSize: nat, op: EraseOp, isNand: bool)
    requires WellFormed(Erase(op)) && Readable(isNand, Erase(op))
    ensures ReadErase(EraseTag(op), isNand).Some?
    ensures Actions(src, storageSize, Erase(ReadErase(EraseTag(op), isNand).value))
         == Actions(src, storageSize, Erase(op))
        <==> Faithful(isNand, Erase(op))
  {
    hide ReadErase;
    EraseReadsBack(op, isNand);
  }

  /** A patch of the disk means the same exactly when it says where it starts. */
  lemma PatchSurvivesIff(src: Sources, storageSize: nat, op: PatchOp)
    requires WellFormed(Patch(op)) && op.filename == Some(Text(DISK))
    ensures LoadPatch(PatchTag(op)).Some? && |LoadPatch(PatchTag(op)).value| == 1
    ensures Actions(src, storageSize, LoadPatch(PatchTag(op)).value[0]) == Actions(src, storageSize, Patch(op))
        <==> Faithful(false, Patch(op))
  {
    hide LoadPatch, Text;
    PatchReadsBack(op);
  }

  /** Without a start sector an operation starts at sector 0 in a package. */
  lemma MissingStartIsZero(e: EraseOp, q: PatchOp, isNand: bool)
    requires WellFormed(Erase(e)) && WellFormed(Patch(q)) && q.filename == Some(Text(DISK))
    requires e.startSector.None? && q.startSector.None?
    ensures ReadErase(EraseTag(e), isNand).Some? ==>
              ReadErase(EraseTag(e), isNand).value.startSector == Some(Text("0"))
    ensures LoadPatch(PatchTag(q)) == Some([Patch(q.(startSector := Some(Text("0"))))])
  {
    hide ReadErase, LoadPatch, EraseTag, PatchTag;
    assert Text("0") == [48];
    EraseReadsBack(e, isNand);
    PatchReadsBack(q);
  }
}

/**
 * What an installer package contains: the image files, the program and patch documents,
 * the programmers and the flashmap that `create-zip` makes of a list of operations.
 */
module ZipperSpec {
  import opened Bytes
  import opened Options
  import opened Numerals
  import opened Programming
  import opened Ops
  import opened Images
  import opened ProgramLoad
  import opened Meaning
  import Flashmap
  import FlashmapWriter
  import Framing

  /** A source file of a storage, and its name in the package. */
  datatype Rename = Rename(storage: StorageType, source: bytes, zipName: bytes)

  /** The documents of a storage. */
  datatype StorageContext = StorageContext(storage: StorageType, programs: seq<Tag>, patches: seq<Tag>)

  /** A package being written. */
  datatype Package = Package(members: map<bytes, bytes>, names: seq<bytes>, renames: seq<Rename>,
                             storages: seq<StorageContext>, current: Option<nat>, rawIdx: nat, fillIdx: nat)
  {
    predicate Valid() {
      && (current.Some? ==> current.value < |storages|)
      && (forall i :: 0 <= i < |storages| ==> storages[i].storage != Unknown)
    }

    function Add(name: bytes, data: bytes): Package {
      this.(members := members[name := data], names := names + [name])
    }

    function Here(): StorageContext
      requires Valid() && current.Some?
    {
      storages[current.value]
    }

    function WithContext(c: StorageContext): Package
      requires Valid() && current.Some?
    {
      this.(storages := storages[current.value := c])
    }

    /** `zipper_storage_append_program`, `zipper_storage_append_erase` */
    function AppendProgram(tag: Tag): Package
      requires Valid() && current.Some?
    {
      WithContext(Here().(programs := Here().programs + [tag]))
    }

    /** `zipper_storage_append_patch` */
    function AppendPatch(tag: Tag): Package
      requires Valid() && current.Some?
    {
      WithContext(Here().(patches := Here().patches + [tag]))
    }
  }

  const EMPTY_PACKAGE := Package(map[], [], [], [], None, 0, 0)

  function Memory(s: StorageType): bytes
    requires s != Unknown
  {
    Text(EncodeStorageType(s).value)
  }

  // ----- Tags

  function StartAttr(start: Option<bytes>): bytes { if start.Some? then start.value else [48] }

  function OrEmpty(text: Option<bytes>): bytes { if text.Some? then text.value else [] }

  function ProgramTag(op: ProgramOp, zipName: bytes, fileOffset: nat): Tag {
    var base := map["SECTOR_SIZE_IN_BYTES" := Decimal(op.sectorSize), "filename" := zipName,
                    "num_partition_sectors" := Decimal(op.numSectors),
                    "physical_partition_number" := SignedDecimal(op.partition),
                    "start_sector" := StartAttr(op.startSector)];
    var named := if op.partLabel.Some? then base["label" := op.partLabel.value] else base;
    Framing.Node("program",
                 if op.isNand
                     then named["PAGES_PER_BLOCK" := Decimal(op.pagesPerBlock)]["last_sector" := Decimal(op.lastSector)]
                 else named["file_sector_offset" := Decimal(fileOffset)])
  }

  function EraseTag(op: EraseOp): Tag {
    var base := map["SECTOR_SIZE_IN_BYTES" := Decimal(op.sectorSize),
                    "num_partition_sectors" := Decimal(op.numSectors),
                    "physical_partition_number" := SignedDecimal(op.partition),
                    "start_sector" := StartAttr(op.startSector)];
    Framing.Node("erase", if op.isNand then base["PAGES_PER_BLOCK" := Decimal(op.pagesPerBlock)] else base)
  }

  function PatchTag(op: PatchOp): Tag {
    Framing.Node("patch",
                 map["SECTOR_SIZE_IN_BYTES" := Decimal(op.sectorSize), "byte_offset" := Decimal(op.byteOffset),
                     "filename" := OrEmpty(op.filename), "physical_partition_number" := SignedDecimal(op.partition),
                     "size_in_bytes" := Decimal(op.sizeInBytes), "start_sector" := StartAttr(op.startSector),
                     "value" := OrEmpty(op.value), "what" := OrEmpty(op.what)])
  }

  // ----- Image files

  const INT64_MAX := 0x7FFF_FFFF_FFFF_FFFF

  /** "%06u" */
  function SixDigits(n: nat): bytes {
    var d := Decimal(n);
    (if |d| < 6 then seq(6 - |d|, _ => 48) else []) + d
  }

  function RawName(memory: bytes, i: nat): bytes { memory + Text("_raw_") + SixDigits(i) + Text(".bin") }

  function FillName(memory: bytes, i: nat): bytes { memory + Text("_fill_") + SixDigits(i) + Text(".bin") }

  /** `zipper_register_raw_program_file`: a part of a file becomes a member; a range beyond the file is refused. */
  function RegisterRaw(files: map<bytes, bytes>, k: Package, memory: bytes,
                       op: ProgramOp): (r: Option<(Package, bytes)>)
    requires op.filename.Some?
    ensures r.Some? ==> r.value.0.storages == k.storages && r.value.0.current == k.current
  {
    var name := RawName(memory, k.rawIdx);
    if op.sectorSize == 0 || op.numSectors == 0 || op.numSectors > INT64_MAX / op.sectorSize then None
    else
      var size := op.numSectors * op.sectorSize;
      if name in k.names || op.filename.value !in files then None
      else
        var content := files[op.filename.value];
        if op.sparseOffset + size > |content| then None
        else Some((k.(rawIdx := (k.rawIdx + 1) % 0x1_0000_0000).Add(name,
                                                                    content[op.sparseOffset..op.sparseOffset + size]),
                                                                        name))
  }

  /** `zipper_register_fill_program_file`: a fill is written out. */
  function RegisterFill(k: Package, memory: bytes, op: ProgramOp): (r: Option<(Package, bytes)>)
    ensures r.Some? ==> r.value.0.storages == k.storages && r.value.0.current == k.current
  {
    var name := FillName(memory, k.fillIdx);
    if op.sectorSize == 0 || op.numSectors == 0 || name in k.names then None
    else Some((k.(fillIdx := (k.fillIdx + 1) % 0x1_0000_0000).Add(name,
                                                                  FillPattern(op.fillValue,
                                                                        op.numSectors * op.sectorSize)),
               name))
  }

  /** `zipper_find_file_rename`: the first match. */
  function FindRename(renames: seq<Rename>, s: StorageType, source: bytes): Option<bytes> {
    if |renames| == 0 then None
    else
      var last := renames[|renames| - 1];
      match FindRename(renames[..|renames| - 1], s, source)
      case Some(name) => Some(name)
      case None => if last.storage == s && last.source == source then Some(last.zipName) else None
  }

  /** `zipper_register_program_file`: a file is added once for each storage that uses it. */
  function RegisterFile(files: map<bytes, bytes>, k: Package, s: StorageType,
                        source: bytes): (r: Option<(Package, bytes)>)
    requires s != Unknown
    ensures r.Some? ==> r.value.0.storages == k.storages && r.value.0.current == k.current
  {
    match FindRename(k.renames, s, source)
    case Some(name) => Some((k, name))
    case None =>
      var name := Memory(s) + Text("_") + Basename(source);
      if |source| == 0 || name in k.names || source !in files then None
      else Some((k.Add(name, files[source]).(renames := k.renames + [Rename(s, source, name)]), name))
  }

  function Register(files: map<bytes, bytes>, k: Package, s: StorageType, op: ProgramOp): (r: Option<(Package, bytes)>)
    requires s != Unknown && op.filename.Some?
    ensures r.Some? ==> r.value.0.storages == k.storages && r.value.0.current == k.current
  {
    if !op.sparse then RegisterFile(files, k, s, op.filename.value)
    else if op.chunkType == CHUNK_TYPE_RAW then RegisterRaw(files, k, Memory(s), op)
    else if op.chunkType == CHUNK_TYPE_FILL then RegisterFill(k, Memory(s), op)
    else None
  }

  // ----- Operations

  function PackProgram(files: map<bytes, bytes>, k: Package, op: ProgramOp): (r: Option<Package>)
    requires k.Valid() && k.current.Some?
    ensures r.Some? ==> r.value.Valid()
  {
    if op.filename.None? then Some(k)
    else if op.fromZip then None
    else
      match Register(files, k, k.Here().storage, op)
      case None => None
      case Some((k', name)) => Some(k'.AppendProgram(ProgramTag(op, name, if op.sparse then 0 else op.fileOffset)))
  }

  /** `zipper_find_storage_ctx` */
  function FindStorage(storages: seq<StorageContext>, s: StorageType): (r: Option<nat>)
    ensures r.Some? ==> r.value < |storages| && storages[r.value].storage == s
    ensures r.None? ==> forall i :: 0 <= i < |storages| ==> storages[i].storage != s
  {
    if |storages| == 0 then None
    else
      match FindStorage(storages[..|storages| - 1], s)
      case Some(i) => Some(i)
      case None => if storages[|storages| - 1].storage == s then Some(|storages| - 1) else None
  }

  function PackConfigure(k: Package, s: StorageType): (r: Option<Package>)
    requires k.Valid()
    ensures r.Some? ==> r.value.Valid()
  {
    match FindStorage(k.storages, s)
    case Some(i) => Some(k.(current := Some(i)))
    case None =>
      if s == Unknown then None
      else Some(k.(storages := k.storages + [StorageContext(s, [], [])], current := Some(|k.storages|)))
  }

  function PackOp(files: map<bytes, bytes>, k: Package, op: Op): (r: Option<Package>)
    requires k.Valid()
    ensures r.Some? ==> r.value.Valid()
  {
    if op.Configure? then PackConfigure(k, op.storage)
    else if k.current.None? then None
    else
      match op
      case Program(p) => PackProgram(files, k, p)
      case Erase(e) => Some(k.AppendProgram(EraseTag(e)))
      case Patch(q) => Some(if q.filename == Some(Text(DISK)) then k.AppendPatch(PatchTag(q)) else k)
  }

  function PackOps(files: map<bytes, bytes>, ops: seq<Op>): (r: Option<Package>)
    ensures r.Some? ==> r.value.Valid()
  {
    if |ops| == 0 then Some(EMPTY_PACKAGE)
    else
      match PackOps(files, ops[..|ops| - 1])
      case None => None
      case Some(k) => PackOp(files, k, ops[|ops| - 1])
  }

  // ----- Programmers

  /** `zipper_basename` */
  function ZipperBasename(path: bytes): Option<bytes> { if |path| == 0 then None else Some(Basename(path)) }

  /** The name a programmer image gets: its basename, or one made unique by its slot. */
  function ImageName(k: Package, image: Image, slot: nat): Option<bytes> {
    match ZipperBasename(if image.name.Some? then image.name.value else Text("programmer.bin"))
    case None => None
    case Some(base) =>
      var name := if base in k.names then Text("sahara") + Decimal(slot) + Text("_") + base else base;
      if name in k.names then None else Some(name)
  }

  /** `zipper_add_programmer_images`, the first `n` slots: the package and the name of each image. */
  function AddImages(k: Package, images: seq<Option<Image>>, n: nat): (r: Option<(Package, seq<Option<bytes>>)>)
    requires n <= |images|
    ensures r.Some? ==> |r.value.1| == n && r.value.0.storages == k.storages
  {
    if n == 0 then Some((k, []))
    else
      match AddImages(k, images, n - 1)
      case None => None
      case Some((k', entries)) =>
        if images[n - 1].None? then Some((k', entries + [None]))
        else
          match ImageName(k', images[n - 1].value, n - 1)
          case None => None
          case Some(name) => Some((k'.Add(name, images[n - 1].value.content), entries + [Some(name)]))
  }

  predicate AnyImage(entries: seq<Option<bytes>>) { exists i :: 0 <= i < |entries| && entries[i].Some? }

  // ----- Documents

  function ProgramXml(s: StorageType): bytes
    requires s != Unknown
  {
    Memory(s) + Text("_rawprogram.xml")
  }

  function PatchXml(s: StorageType): bytes
    requires s != Unknown
  {
    Memory(s) + Text("_patch.xml")
  }

  function ProgramDocument(c: StorageContext): Document { Document("data", c.programs) }

  function PatchDocument(c: StorageContext): Document { Document("patches", c.patches) }

  /** `zipper_add_storage_xml` */
  function AddDocuments(xml: Xml, k: Package, c: StorageContext): Option<Package>
    requires c.storage != Unknown
  {
    if ProgramXml(c.storage) in k.names || PatchXml(c.storage) in k.names then None
    else Some(k.Add(ProgramXml(c.storage), xml.write(ProgramDocument(c))).Add(PatchXml(c.storage),
          xml.write(PatchDocument(c))))
  }

  /** The documents of the first `n` storages. */
  function AddAllDocuments(xml: Xml, k: Package, n: nat): (r: Option<Package>)
    requires n <= |k.storages| && forall i :: 0 <= i < |k.storages| ==> k.storages[i].storage != Unknown
    ensures r.Some? ==> r.value.storages == k.storages
  {
    if n == 0 then Some(k)
    else
      match AddAllDocuments(xml, k, n - 1)
      case None => None
      case Some(k') => AddDocuments(xml, k', k.storages[n - 1])
  }

  // ----- The package

  const FLASHMAP_NAME := "flashmap.json"

  function FilesOf(storages: seq<StorageContext>): (r: seq<FlashmapWriter.StorageFiles>)
    requires forall i :: 0 <= i < |storages| ==> storages[i].storage != Unknown
    ensures |r| == |storages|
  {
    seq(|storages|, i requires 0 <= i < |storages| =>
      FlashmapWriter.StorageFiles(Memory(storages[i].storage), ProgramXml(storages[i].storage),
                                  PatchXml(storages[i].storage)))
  }

  function FlashmapText(entries: seq<Option<bytes>>, storages: seq<StorageContext>): bytes
    requires forall i :: 0 <= i < |storages| ==> storages[i].storage != Unknown
  {
    Flashmap.Pretty(FlashmapWriter.FlashmapDoc(entries, FilesOf(storages)), 0) + Flashmap.NEWLINE
  }

  /** Everything but the flashmap, and the names of the programmers. */
  function PackAll(xml: Xml, files: map<bytes, bytes>, ops: seq<Op>, images: seq<Option<Image>>)
    : (r: Option<(Package, seq<Option<bytes>>)>)
    ensures r.Some? ==> forall i :: 0 <= i < |r.value.0.storages| ==> r.value.0.storages[i].storage != Unknown
  {
    match PackOps(files, ops)
    case None => None
    case Some(k) =>
      if k.storages == [] then None
      else
        match AddImages(k, images, |images|)
        case None => None
        case Some((k', entries)) =>
          if !AnyImage(entries) then None
          else
            match AddAllDocuments(xml, k', |k'.storages|)
            case None => None
            case Some(done) => Some((done, entries))
  }

  /** `zipper_write`: the members of the package. */
  function WritePackage(xml: Xml, files: map<bytes, bytes>, ops: seq<Op>,
                        images: seq<Option<Image>>): Option<map<bytes, bytes>> {
    match PackAll(xml, files, ops, images)
    case None => None
    case Some((k, entries)) => Some(k.members[Text(FLASHMAP_NAME) := FlashmapText(entries, k.storages)])
  }
}

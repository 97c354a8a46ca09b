/** Program and patch files: XML documents, and the operations their tags stand for. */
module ProgramLoad {
  import opened Bytes
  import opened Options
  import opened Numerals
  import opened Files
  import opened Ops
  import opened SparseFormat
  import opened SparseLoad
  import Framing

  type Tag = Framing.Node

  /** A parsed document: its root element and the elements in it. */
  datatype Document = Document(root: string, tags: seq<Tag>)

  /** The XML library. */
  datatype Xml = Xml(write: Document -> bytes, read: bytes -> Option<Document>)

  /** Where files are looked up: on the host or in a zip archive. */
  datatype Place = Directory(files: map<bytes, bytes>) | Archive(files: map<bytes, bytes>)

  function KindOf(place: Place): FileKind { if place.Archive? then ZipMember else Posix }

  // ----- Attributes

  /** `attr_as_unsigned` */
  function AttrUnsigned(tag: Tag, attr: string): (r: Option<nat>)
    ensures r.Some? ==> r.value < 0x1_0000_0000
  {
    if attr in tag.attrs then Some(Strtoul(tag.attrs[attr], 0).0 % 0x1_0000_0000) else None
  }

  /** An unsigned int, stored in an int. */
  function AsInt(n: nat): int { if n < 0x8000_0000 then n else n - 0x1_0000_0000 }

  /** `attr_as_string`: nothing for a missing attribute, a null pointer for an empty one. */
  function AttrString(tag: Tag, attr: string): Option<Option<bytes>> {
    if attr !in tag.attrs then None
    else if tag.attrs[attr] == [] then Some(None)
    else Some(Some(tag.attrs[attr]))
  }

  /** `attr_as_bool` */
  predicate AttrBool(tag: Tag, attr: string) {
    attr in tag.attrs && tag.attrs[attr] == Text("true")
  }

  // ----- Tags

  /** `load_erase_tag` */
  function ReadErase(tag: Tag, isNand: bool): Option<EraseOp> {
    var ss, num := AttrUnsigned(tag, "SECTOR_SIZE_IN_BYTES"), AttrUnsigned(tag, "num_partition_sectors");
    var partition, start := AttrUnsigned(tag, "physical_partition_number"), AttrString(tag, "start_sector");
    var pages := if isNand then AttrUnsigned(tag, "PAGES_PER_BLOCK") else Some(0);
    if ss.None? || num.None? || partition.None? || start.None? || pages.None? || num.value == 0 then None
    else Some(EraseOp(AsInt(partition.value), ss.value, start.value, num.value, isNand, pages.value))
  }

  /** The attributes of a program tag. */
  function ReadProgram(place: Place, tag: Tag, isNand: bool): Option<ProgramOp> {
    var ss, num := AttrUnsigned(tag, "SECTOR_SIZE_IN_BYTES"), AttrUnsigned(tag, "num_partition_sectors");
    var partition, start := AttrUnsigned(tag, "physical_partition_number"), AttrString(tag, "start_sector");
    var filename, name := AttrString(tag, "filename"), AttrString(tag, "label");
    var pages := if isNand then AttrUnsigned(tag, "PAGES_PER_BLOCK") else Some(0);
    var last := if isNand && "last_sector" in tag.attrs then AttrUnsigned(tag, "last_sector") else Some(0);
    var offset := if isNand then Some(0) else AttrUnsigned(tag, "file_sector_offset");
    if ss.None? || num.None? || partition.None? || start.None? || filename.None? || name.None?
       || pages.None? || last.None? || offset.None? then None
    else Some(ProgramOp(AsInt(partition.value), ss.value, place.Archive?, filename.value, start.value, num.value,
                        pages.value, offset.value, name.value, AttrBool(tag, "sparse"), last.value, isNand, 0, 0, 0))
  }

  /** A sparse image becomes one operation a chunk, and its tag an operation without a file. */
  function ExpandSparse(p: ProgramOp, content: bytes, kind: FileKind): Option<seq<ProgramOp>> {
    if ParseHeader(content, kind).None? && kind == Posix && p.sectorSize * p.numSectors == |content| then
      Some([p.(sparse := false)])
    else if 0 < p.sectorSize && p.startSector.Some? && FileChunks(content, kind).Some? then
      match SparseOps(p, FileChunks(content, kind).value)
      case None => None
      case Some((ops, q)) => Some(ops + [q.(filename := None)])
    else None
  }

  /** `load_program_tag` */
  function ExpandProgram(place: Place, tag: Tag, isNand: bool, allowMissing: bool): Option<seq<ProgramOp>> {
    match ReadProgram(place, tag, isNand)
    case None => None
    case Some(p) =>
      if p.filename.None? then Some([p])
      else if p.filename.value !in place.files then if allowMissing then Some([p.(filename := None)]) else None
      else if p.sparse then ExpandSparse(p, place.files[p.filename.value], KindOf(place))
      else Some([p])
  }

  /** Without a sparse header an image on the host is programmed as it is when it has the partition's size. */
  lemma NoSparseHeader(p: ProgramOp, content: bytes, kind: FileKind)
    requires ParseHeader(content, kind).None?
    ensures ExpandSparse(p, content, kind)
         == if kind == Posix && |content| == p.numSectors * p.sectorSize then Some([p.(sparse := false)]) else None
  {
    hide ParseHeader;
  }

  /** Only the last sector, which counts for NAND alone, and the mark of a sparse image may be missing. */
  lemma OptionalAttributes(place: Place, tag: Tag, isNand: bool)
    ensures var bare, r := tag.(attrs := tag.attrs - {"last_sector", "sparse"}), ReadProgram(place, tag, isNand);
            && ReadProgram(place, bare, isNand)
                == (if r.None? then None else Some(r.value.(lastSector := 0, sparse := false)))
            && (r.Some? && !isNand ==> r.value.lastSector == 0)
            && (r.Some? && isNand && "last_sector" in tag.attrs ==>
                  r.value.lastSector == AttrUnsigned(tag, "last_sector").value)
  {
    hide AttrUnsigned, AttrString, AttrBool;
    var bare := tag.(attrs := tag.attrs - {"last_sector", "sparse"});
    Unmoved(tag, bare, "SECTOR_SIZE_IN_BYTES");
    Unmoved(tag, bare, "num_partition_sectors");
    Unmoved(tag, bare, "physical_partition_number");
    Unmoved(tag, bare, "start_sector");
    Unmoved(tag, bare, "filename");
    Unmoved(tag, bare, "label");
    Unmoved(tag, bare, "PAGES_PER_BLOCK");
    Unmoved(tag, bare, "file_sector_offset");
    NotThere(bare, "sparse");
    if "last_sector" in tag.attrs { IsThere(tag, "last_sector"); }
  }

  lemma Unmoved(tag: Tag, bare: Tag, attr: string)
    requires bare.attrs == tag.attrs - {"last_sector", "sparse"} && attr != "last_sector" && attr != "sparse"
    ensures AttrUnsigned(bare, attr) == AttrUnsigned(tag, attr) && AttrString(bare, attr) == AttrString(tag, attr)
  {
    hide Strtoul;
  }

  lemma NotThere(tag: Tag, attr: string)
    requires attr !in tag.attrs
    ensures !AttrBool(tag, attr)
  {
  }

  lemma IsThere(tag: Tag, attr: string)
    requires attr in tag.attrs
    ensures AttrUnsigned(tag, attr).Some?
  {
  }

  /** An image there is is expanded exactly when its tag says sparse="true"; otherwise it is one operation. */
  lemma SparseTagIff(place: Place, tag: Tag, isNand: bool, allowMissing: bool)
    requires ReadProgram(place, tag, isNand).Some? && ReadProgram(place, tag, isNand).value.filename.Some?
    requires ReadProgram(place, tag, isNand).value.filename.value in place.files
    ensures var p := ReadProgram(place, tag, isNand).value;
            ExpandProgram(place, tag, isNand, allowMissing)
            == if "sparse" in tag.attrs && tag.attrs["sparse"] == [116, 114, 117, 101]
               then ExpandSparse(p, place.files[p.filename.value], KindOf(place)) else Some([p])
  {
    hide ExpandSparse, AttrUnsigned, AttrString;
    assert Text("true") == [116, 114, 117, 101];
  }

  function ProgramsOf(ops: seq<ProgramOp>): (r: seq<Op>)
    ensures |r| == |ops|
  {
    seq(|ops|, i requires 0 <= i < |ops| => Program(ops[i]))
  }

  function LoadTag(place: Place, tag: Tag, isNand: bool, allowMissing: bool): Option<seq<Op>> {
    if tag.name == "erase" then
      match ReadErase(tag, isNand) case None => None case Some(e) => Some([Erase(e)])
    else if tag.name == "program" then
      match ExpandProgram(place, tag, isNand, allowMissing) case None => None case Some(ps) => Some(ProgramsOf(ps))
    else None
  }

  /** `program_load_xml` */
  function LoadTags(place: Place, tags: seq<Tag>, isNand: bool, allowMissing: bool): Option<seq<Op>> {
    if |tags| == 0 then Some([])
    else
      var before := LoadTags(place, tags[..|tags| - 1], isNand, allowMissing);
      var last := LoadTag(place, tags[|tags| - 1], isNand, allowMissing);
      if before.None? || last.None? then None else Some(before.value + last.value)
  }

  /** One tag of a patch file; other tags than patches are ignored. */
  function LoadPatch(tag: Tag): Option<seq<Op>> {
    var ss, offset := AttrUnsigned(tag, "SECTOR_SIZE_IN_BYTES"), AttrUnsigned(tag, "byte_offset");
    var partition, size := AttrUnsigned(tag, "physical_partition_number"), AttrUnsigned(tag, "size_in_bytes");
    var filename, start := AttrString(tag, "filename"), AttrString(tag, "start_sector");
    var value, what := AttrString(tag, "value"), AttrString(tag, "what");
    if tag.name != "patch" then Some([])
    else if ss.None? || offset.None? || partition.None? || size.None? || filename.None? || start.None?
            || value.None? || what.None? then None
    else Some([Patch(PatchOp(AsInt(partition.value), ss.value, offset.value, filename.value, size.value, start.value,
                             value.value, what.value))])
  }

  /** `patch_load_xml` */
  function LoadPatches(tags: seq<Tag>): Option<seq<Op>> {
    if |tags| == 0 then Some([])
    else
      var before, last := LoadPatches(tags[..|tags| - 1]), LoadPatch(tags[|tags| - 1]);
      if before.None? || last.None? then None else Some(before.value + last.value)
  }

  predicate TagLoads(place: Place, tag: Tag, isNand: bool, allowMissing: bool) {
    LoadTag(place, tag, isNand, allowMissing).Some?
  }

  /** A program file loads exactly when each of its tags is an erase or a program that does. */
  lemma {:induction false} TagsLoadIff(place: Place, tags: seq<Tag>, isNand: bool, allowMissing: bool)
    ensures LoadTags(place, tags, isNand, allowMissing).Some?
        <==> forall i :: 0 <= i < |tags| ==>
                           && TagLoads(place, tags[i], isNand, allowMissing)
                           && (tags[i].name == "erase" || tags[i].name == "program")
  {
    hide ReadErase, ExpandProgram;
    if |tags| > 0 { TagsLoadIff(place, tags[..|tags| - 1], isNand, allowMissing); }
  }

  /** A patch file loads exactly when each of its patches does; all other tags are passed over. */
  lemma {:induction false} PatchesLoadIff(tags: seq<Tag>)
    ensures LoadPatches(tags).Some? <==> forall i :: 0 <= i < |tags| && tags[i].name == "patch" ==>
              LoadPatch(tags[i]).Some?
    ensures LoadPatches(tags).Some? ==> |LoadPatches(tags).value| == |PatchTags(tags)|
  {
    hide AttrUnsigned, AttrString;
    if |tags| > 0 { PatchesLoadIff(tags[..|tags| - 1]); }
  }

  function PatchTags(tags: seq<Tag>): seq<Tag> {
    if |tags| == 0 then []
    else PatchTags(tags[..|tags| - 1]) + if tags[|tags| - 1].name == "patch" then [tags[|tags| - 1]] else []
  }

  /** A list that stays refused once one of its tags is. */
  lemma {:induction false} TagsFail(place: Place, tags: seq<Tag>, isNand: bool, allowMissing: bool, i: nat)
    requires i <= |tags| && LoadTags(place, tags[..i], isNand, allowMissing).None?
    ensures LoadTags(place, tags, isNand, allowMissing).None?
    decreases |tags| - i
  {
    hide LoadTag;
    if i < |tags| {
      assert tags[..i + 1][..i] == tags[..i];
      TagsFail(place, tags, isNand, allowMissing, i + 1);
    } else {
      assert tags[..i] == tags;
    }
  }

  lemma {:induction false} PatchesFail(tags: seq<Tag>, i: nat)
    requires i <= |tags| && LoadPatches(tags[..i]).None?
    ensures LoadPatches(tags).None?
    decreases |tags| - i
  {
    hide LoadPatch;
    if i < |tags| {
      assert tags[..i + 1][..i] == tags[..i];
      PatchesFail(tags, i + 1);
    } else {
      assert tags[..i] == tags;
    }
  }

  /** A list of operations that loading appends to. */
  class OpList {
    var ops: seq<Op>

    constructor ()
      ensures ops == []
    {
      ops := [];
    }

    method Append(op: Op)
      modifies this
      ensures ops == old(ops) + [op]
    {
      ops := ops + [op];
    }

    method LoadEraseTag(tag: Tag, isNand: bool) returns (ok: bool)
      modifies this
      ensures ok <==> ReadErase(tag, isNand).Some?
      ensures ops == if ok then old(ops) + [Erase(ReadErase(tag, isNand).value)] else old(ops)
    {
      hide AttrUnsigned, AttrString;
      var ss, num := AttrUnsigned(tag, "SECTOR_SIZE_IN_BYTES"), AttrUnsigned(tag, "num_partition_sectors");
      var partition, start := AttrUnsigned(tag, "physical_partition_number"), AttrString(tag, "start_sector");
      var pages := Some(0);
      if isNand {
        pages := AttrUnsigned(tag, "PAGES_PER_BLOCK");
      }
      if ss.None? || num.None? || partition.None? || start.None? || pages.None? {
        return false;
      }
      if num.value == 0 {
        return false;
      }
      Append(Erase(EraseOp(AsInt(partition.value), ss.value, start.value, num.value, isNand, pages.value)));
      return true;
    }

    method LoadProgramTag(place: Place, tag: Tag, isNand: bool, allowMissing: bool) returns (ok: bool)
      modifies this
      ensures ok <==> ExpandProgram(place, tag, isNand, allowMissing).Some?
      ensures ok ==> ops == old(ops) + ProgramsOf(ExpandProgram(place, tag, isNand, allowMissing).value)
    {
      hide ReadProgram, SparseOps, FileChunks, ParseHeader;
      var read := ReadProgram(place, tag, isNand);
      if read.None? {
        return false;
      }
      var p := read.value;
      if p.filename.Some? && p.filename.value !in place.files {
        if !allowMissing {
          return false;
        }
        p := p.(filename := None);
      }
      if p.filename.Some? && p.sparse {
        var file := new QdlFile(place.files[p.filename.value], KindOf(place), 4096);
        var r, chunks, q := ProgramLoadSparse(file, p);
        if r == LoadFailed {
          return false;
        }
        AppendPrograms(chunks);
        p := if r == Loaded then q.(filename := None) else q;
        assert ProgramsOf(chunks + [p]) == ProgramsOf(chunks) + [Program(p)];
      } else {
        assert ProgramsOf([p]) == [Program(p)];
      }
      Append(Program(p));
      return true;
    }

    method AppendPrograms(ps: seq<ProgramOp>)
      modifies this
      ensures ops == old(ops) + ProgramsOf(ps)
    {
      for i := 0 to |ps|
        invariant ops == old(ops) + ProgramsOf(ps[..i])
      {
        Append(Program(ps[i]));
        assert ProgramsOf(ps[..i + 1]) == ProgramsOf(ps[..i]) + [Program(ps[i])];
      }
      assert ps[..|ps|] == ps;
    }

    method ProgramLoadXml(place: Place, doc: Document, isNand: bool, allowMissing: bool) returns (ok: bool)
      modifies this
      ensures ok <==> LoadTags(place, doc.tags, isNand, allowMissing).Some?
      ensures ok ==> ops == old(ops) + LoadTags(place, doc.tags, isNand, allowMissing).value
    {
      hide LoadTag;
      for i := 0 to |doc.tags|
        invariant LoadTags(place, doc.tags[..i], isNand, allowMissing).Some?
        invariant ops == old(ops) + LoadTags(place, doc.tags[..i], isNand, allowMissing).value
      {
        assert doc.tags[..i + 1][..i] == doc.tags[..i];
        ok := LoadOneTag(place, doc.tags[i], isNand, allowMissing);
        if !ok {
          TagsFail(place, doc.tags, isNand, allowMissing, i + 1);
          return false;
        }
      }
      assert doc.tags[..|doc.tags|] == doc.tags;
      return true;
    }

    method LoadOneTag(place: Place, tag: Tag, isNand: bool, allowMissing: bool) returns (ok: bool)
      modifies this
      ensures ok <==> LoadTag(place, tag, isNand, allowMissing).Some?
      ensures ok ==> ops == old(ops) + LoadTag(place, tag, isNand, allowMissing).value
    {
      hide ReadErase, ExpandProgram;
      if tag.name == "erase" {
        ok := LoadEraseTag(tag, isNand);
      } else if tag.name == "program" {
        ok := LoadProgramTag(place, tag, isNand, allowMissing);
      } else {
        ok := false;
      }
    }

    method PatchLoadXml(doc: Document) returns (ok: bool)
      modifies this
      ensures ok <==> LoadPatches(doc.tags).Some?
      ensures ok ==> ops == old(ops) + LoadPatches(doc.tags).value
    {
      hide LoadPatch;
      for i := 0 to |doc.tags|
        invariant LoadPatches(doc.tags[..i]).Some?
        invariant ops == old(ops) + LoadPatches(doc.tags[..i]).value
      {
        assert doc.tags[..i + 1][..i] == doc.tags[..i];
        ok := LoadPatchTag(doc.tags[i]);
        if !ok {
          PatchesFail(doc.tags, i + 1);
          return false;
        }
      }
      assert doc.tags[..|doc.tags|] == doc.tags;
      return true;
    }

    method LoadPatchTag(tag: Tag) returns (ok: bool)
      modifies this
      ensures ok <==> LoadPatch(tag).Some?
      ensures ops == if ok then old(ops) + LoadPatch(tag).value else old(ops)
    {
      hide AttrUnsigned, AttrString;
      if tag.name != "patch" {
        return true;
      }
      var ss, offset := AttrUnsigned(tag, "SECTOR_SIZE_IN_BYTES"), AttrUnsigned(tag, "byte_offset");
      var filename, partition := AttrString(tag, "filename"), AttrUnsigned(tag, "physical_partition_number");
      var size, start := AttrUnsigned(tag, "size_in_bytes"), AttrString(tag, "start_sector");
      var value, what := AttrString(tag, "value"), AttrString(tag, "what");
      if ss.None? || offset.None? || filename.None? || partition.None? || size.None? || start.None?
         || value.None? || what.None? {
        return false;
      }
      Append(Patch(PatchOp(AsInt(partition.value), ss.value, offset.value, filename.value, size.value, start.value,
                           value.value, what.value)));
      return true;
    }
  }
}

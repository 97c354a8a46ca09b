/** `create-zip`: writing an installer package. */
module Zipper {
  import opened Bytes
  import opened Options
  import opened Numerals
  import opened Programming
  import opened Ops
  import opened Images
  import opened ProgramLoad
  import opened Meaning
  import opened ZipperSpec
  import Flashmap
  import FlashmapWriter

  /** The bytes of a fill chunk: the value over and over, the last copy cut short. */
  method FillBuffer(value: nat, size: nat) returns (buf: array<byte>)
    ensures fresh(buf) && buf[..] == FillPattern(value, size)
    ensures forall v: bytes | |v| == 4 && LittleEndian(v) == value :: Repeats(buf[..], v)
  {
    buf := new byte[size];
    var i := 0;
    while i + 4 <= size
      invariant i <= size && i % 4 == 0
      invariant forall k :: 0 <= k < i ==> buf[k] == FillByte(value, k)
    {
      buf[i], buf[i + 1] := FillByte(value, 0), FillByte(value, 1);
      buf[i + 2], buf[i + 3] := FillByte(value, 2), FillByte(value, 3);
      i := i + 4;
    }
    while i < size
      invariant i <= size
      invariant forall k :: 0 <= k < i ==> buf[k] == FillByte(value, k)
    {
      buf[i] := FillByte(value, i % 4);
      i := i + 1;
    }
    assert buf[..] == FillPattern(value, size);
    forall v: bytes | |v| == 4 && LittleEndian(v) == value
      ensures Repeats(buf[..], v)
    {
      FillRepeats(v, size);
    }
  }

  lemma {:induction false} Found(renames: seq<Rename>, s: StorageType, source: bytes, i: nat)
    requires i <= |renames| && FindRename(renames[..i], s, source).Some?
    ensures FindRename(renames, s, source) == FindRename(renames[..i], s, source)
    decreases |renames| - i
  {
    if i < |renames| {
      assert renames[..i + 1][..i] == renames[..i];
      Found(renames, s, source, i + 1);
    } else {
      assert renames[..i] == renames;
    }
  }

  lemma {:induction false} FoundStorage(storages: seq<StorageContext>, s: StorageType, i: nat)
    requires i <= |storages| && FindStorage(storages[..i], s).Some?
    ensures FindStorage(storages, s) == FindStorage(storages[..i], s)
    decreases |storages| - i
  {
    if i < |storages| {
      assert storages[..i + 1][..i] == storages[..i];
      FoundStorage(storages, s, i + 1);
    } else {
      assert storages[..i] == storages;
    }
  }

  lemma {:induction false} OpsFail(files: map<bytes, bytes>, ops: seq<Op>, i: nat)
    requires i <= |ops| && PackOps(files, ops[..i]).None?
    ensures PackOps(files, ops).None?
    decreases |ops| - i
  {
    hide PackOp;
    if i < |ops| {
      assert ops[..i + 1][..i] == ops[..i];
      OpsFail(files, ops, i + 1);
    } else {
      assert ops[..i] == ops;
    }
  }

  lemma {:induction false} ImagesFail(k: Package, images: seq<Option<Image>>, i: nat, n: nat)
    requires i <= n <= |images| && AddImages(k, images, i).None?
    ensures AddImages(k, images, n).None?
  {
    hide ImageName;
    if i < n { ImagesFail(k, images, i, n - 1); }
  }

  lemma NoEntries()
    ensures !AnyImage([])
  {
  }

  lemma OneMoreEntry(entries: seq<Option<bytes>>, entry: Option<bytes>)
    ensures AnyImage(entries + [entry]) <==> AnyImage(entries) || entry.Some?
  {
    var more := entries + [entry];
    if AnyImage(entries) {
      var i :| 0 <= i < |entries| && entries[i].Some?;
      assert more[i].Some?;
    }
    if entry.Some? { assert more[|entries|].Some?; }
  }

  lemma {:induction false} DocumentsFail(xml: Xml, k: Package, i: nat, n: nat)
    requires i <= n <= |k.storages| && forall j :: 0 <= j < |k.storages| ==> k.storages[j].storage != Unknown
    requires AddAllDocuments(xml, k, i).None?
    ensures AddAllDocuments(xml, k, n).None?
  {
    hide AddDocuments;
    if i < n { DocumentsFail(xml, k, i, n - 1); }
  }

  class PackageWriter {
    const xml: Xml
    const files: map<bytes, bytes>
    var members: map<bytes, bytes>
    var names: seq<bytes>
    var renames: seq<Rename>
    var storages: seq<StorageContext>
    var storage: Option<nat>
    var rawIdx: nat
    var fillIdx: nat

    function View(): Package
      reads this
    {
      Package(members, names, renames, storages, storage, rawIdx, fillIdx)
    }

    constructor (xml: Xml, files: map<bytes, bytes>)
      ensures this.xml == xml && this.files == files && View() == EMPTY_PACKAGE
    {
      this.xml, this.files := xml, files;
      members, names, renames, storages, storage, rawIdx, fillIdx := map[], [], [], [], None, 0, 0;
    }

    /** `zipper_name_is_used` */
    method NameIsUsed(name: bytes) returns (used: bool)
      ensures used <==> name in names
    {
      for i := 0 to |names|
        invariant name !in names[..i]
      {
        if names[i] == name {
          return true;
        }
      }
      return false;
    }

    method FindFileRename(s: StorageType, source: bytes) returns (name: Option<bytes>)
      ensures name == FindRename(renames, s, source)
    {
      for i := 0 to |renames|
        invariant FindRename(renames[..i], s, source).None?
      {
        assert renames[..i + 1][..i] == renames[..i];
        if renames[i].storage == s && renames[i].source == source {
          Found(renames, s, source, i + 1);
          return Some(renames[i].zipName);
        }
      }
      assert renames[..|renames|] == renames;
      return None;
    }

    method FindStorageContext(s: StorageType) returns (r: Option<nat>)
      ensures r == FindStorage(storages, s)
    {
      for i := 0 to |storages|
        invariant FindStorage(storages[..i], s).None?
      {
        assert storages[..i + 1][..i] == storages[..i];
        if storages[i].storage == s {
          FoundStorage(storages, s, i + 1);
          return Some(i);
        }
      }
      assert storages[..|storages|] == storages;
      return None;
    }

    /** A member, and its name among those that are taken. */
    method AddMember(name: bytes, data: bytes)
      modifies this
      ensures View() == old(View()).Add(name, data)
    {
      members := members[name := data];
      names := names + [name];
    }

    method RegisterRawProgramFile(memory: bytes, op: ProgramOp) returns (name: Option<bytes>)
      requires op.filename.Some?
      modifies this
      ensures name.Some? <==> RegisterRaw(files, old(View()), memory, op).Some?
      ensures name.Some? ==> RegisterRaw(files, old(View()), memory, op).value == (View(), name.value)
    {
      hide RawName;
      if op.sectorSize == 0 || op.numSectors == 0 {
        return None;
      }
      if op.numSectors > INT64_MAX / op.sectorSize {
        return None;
      }
      var size := op.numSectors * op.sectorSize;
      var filename := RawName(memory, rawIdx);
      var used := NameIsUsed(filename);
      if used || op.filename.value !in files {
        return None;
      }
      var content := files[op.filename.value];
      if op.sparseOffset + size > |content| {
        return None;
      }
      rawIdx := (rawIdx + 1) % 0x1_0000_0000;
      AddMember(filename, content[op.sparseOffset..op.sparseOffset + size]);
      return Some(filename);
    }

    method RegisterFillProgramFile(memory: bytes, op: ProgramOp) returns (name: Option<bytes>)
      modifies this
      ensures name.Some? <==> RegisterFill(old(View()), memory, op).Some?
      ensures name.Some? ==> RegisterFill(old(View()), memory, op).value == (View(), name.value)
    {
      hide FillName, FillPattern;
      if op.sectorSize == 0 || op.numSectors == 0 {
        return None;
      }
      var filename := FillName(memory, fillIdx);
      var used := NameIsUsed(filename);
      if used {
        return None;
      }
      var buf := FillBuffer(op.fillValue, op.numSectors * op.sectorSize);
      fillIdx := (fillIdx + 1) % 0x1_0000_0000;
      AddMember(filename, buf[..]);
      return Some(filename);
    }

    method RegisterProgramFile(s: StorageType, source: bytes) returns (name: Option<bytes>)
      requires s != Unknown
      modifies this
      ensures name.Some? <==> RegisterFile(files, old(View()), s, source).Some?
      ensures name.Some? ==> RegisterFile(files, old(View()), s, source).value == (View(), name.value)
    {
      hide Memory, Text, Basename;
      var rename := FindFileRename(s, source);
      if rename.Some? {
        return rename;
      }
      if |source| == 0 {
        return None;
      }
      var renamed := Memory(s) + Text("_") + Basename(source);
      var used := NameIsUsed(renamed);
      if used || source !in files {
        return None;
      }
      AddMember(renamed, files[source]);
      renames := renames + [Rename(s, source, renamed)];
      return Some(renamed);
    }

    method RegisterImage(s: StorageType, op: ProgramOp) returns (name: Option<bytes>)
      requires s != Unknown && op.filename.Some?
      modifies this
      ensures name.Some? <==> Register(files, old(View()), s, op).Some?
      ensures name.Some? ==> Register(files, old(View()), s, op).value == (View(), name.value)
    {
      hide RegisterRaw, RegisterFill, RegisterFile;
      if !op.sparse {
        name := RegisterProgramFile(s, op.filename.value);
      } else if op.chunkType == CHUNK_TYPE_RAW {
        name := RegisterRawProgramFile(Memory(s), op);
      } else if op.chunkType == CHUNK_TYPE_FILL {
        name := RegisterFillProgramFile(Memory(s), op);
      } else {
        name := None;
      }
    }

    method AppendProgram(tag: Tag)
      requires View().Valid() && storage.Some?
      modifies this
      ensures View() == old(View()).AppendProgram(tag)
    {
      var c := storages[storage.value];
      storages := storages[storage.value := c.(programs := c.programs + [tag])];
    }

    method AppendPatch(tag: Tag)
      requires View().Valid() && storage.Some?
      modifies this
      ensures View() == old(View()).AppendPatch(tag)
    {
      var c := storages[storage.value];
      storages := storages[storage.value := c.(patches := c.patches + [tag])];
    }

    method WriteProgram(op: ProgramOp) returns (ok: bool)
      requires View().Valid() && storage.Some?
      modifies this
      ensures ok <==> PackProgram(files, old(View()), op).Some?
      ensures ok ==> View() == PackProgram(files, old(View()), op).value
    {
      hide Register, ProgramTag;
      if op.filename.None? {
        return true;
      }
      if op.fromZip {
        return false;
      }
      var name := RegisterImage(storages[storage.value].storage, op);
      if name.None? {
        return false;
      }
      AppendProgram(ProgramTag(op, name.value, if op.sparse then 0 else op.fileOffset));
      return true;
    }

    method WriteConfigure(s: StorageType) returns (ok: bool)
      requires View().Valid()
      modifies this
      ensures ok <==> PackConfigure(old(View()), s).Some?
      ensures ok ==> View() == PackConfigure(old(View()), s).value
    {
      hide FindStorage;
      var found := FindStorageContext(s);
      if found.None? {
        if s == Unknown {
          return false;
        }
        storages := storages + [StorageContext(s, [], [])];
        found := Some(|storages| - 1);
      }
      storage := found;
      return true;
    }

    method WriteOp(op: Op) returns (ok: bool)
      requires View().Valid()
      modifies this
      ensures ok <==> PackOp(files, old(View()), op).Some?
      ensures ok ==> View() == PackOp(files, old(View()), op).value
    {
      hide PackProgram, PackConfigure, EraseTag, PatchTag, Text;
      if op.Configure? {
        ok := WriteConfigure(op.storage);
        return;
      }
      if storage.None? {
        return false;
      }
      match op {
        case Program(p) => ok := WriteProgram(p);
        case Erase(e) =>
          AppendProgram(EraseTag(e));
          ok := true;
        case Patch(q) =>
          if q.filename == Some(Text(DISK)) {
            AppendPatch(PatchTag(q));
          }
          ok := true;
      }
    }

    method WriteOps(ops: seq<Op>) returns (ok: bool)
      requires View() == EMPTY_PACKAGE
      modifies this
      ensures ok <==> PackOps(files, ops).Some?
      ensures ok ==> View() == PackOps(files, ops).value
    {
      hide PackOp;
      for i := 0 to |ops|
        invariant PackOps(files, ops[..i]) == Some(View())
      {
        assert ops[..i + 1][..i] == ops[..i];
        ok := WriteOp(ops[i]);
        if !ok {
          OpsFail(files, ops, i + 1);
          return false;
        }
      }
      assert ops[..|ops|] == ops;
      return true;
    }

    /** The name of a programmer image, and the image among the members. */
    method AddProgrammerImage(image: Image, slot: nat) returns (name: Option<bytes>)
      modifies this
      ensures name == ImageName(old(View()), image, slot)
      ensures View() == if name.Some? then old(View()).Add(name.value, image.content) else old(View())
    {
      hide Basename, Decimal;
      var path := if image.name.Some? then image.name.value else Text("programmer.bin");
      if |path| == 0 {
        return None;
      }
      var zipName := Basename(path);
      var used := NameIsUsed(zipName);
      if used {
        zipName := Text("sahara") + Decimal(slot) + Text("_") + zipName;
      }
      used := NameIsUsed(zipName);
      if used {
        return None;
      }
      AddMember(zipName, image.content);
      return Some(zipName);
    }

    method AddProgrammerImages(images: seq<Option<Image>>) returns (entries: Option<seq<Option<bytes>>>)
      modifies this
      ensures entries.Some? <==> && AddImages(old(View()), images, |images|).Some?
                                 && AnyImage(AddImages(old(View()), images, |images|).value.1)
      ensures entries.Some? ==> AddImages(old(View()), images, |images|).value == (View(), entries.value)
    {
      hide ImageName, AnyImage;
      var programmers: seq<Option<bytes>> := [];
      var count := 0;
      NoEntries();
      for i := 0 to |images|
        invariant AddImages(old(View()), images, i) == Some((View(), programmers))
        invariant count > 0 <==> AnyImage(programmers)
      {
        if images[i].None? {
          OneMoreEntry(programmers, None);
          programmers := programmers + [None];
        } else {
          var name := AddProgrammerImage(images[i].value, i);
          if name.None? {
            ImagesFail(old(View()), images, i + 1, |images|);
            return None;
          }
          OneMoreEntry(programmers, name);
          programmers := programmers + [name];
          count := count + 1;
        }
      }
      return if count > 0 then Some(programmers) else None;
    }

    method AddStorageXml(c: StorageContext) returns (ok: bool)
      requires c.storage != Unknown
      modifies this
      ensures ok <==> AddDocuments(xml, old(View()), c).Some?
      ensures ok ==> View() == AddDocuments(xml, old(View()), c).value
    {
      hide ProgramXml, PatchXml;
      var programXml, patchXml := ProgramXml(c.storage), PatchXml(c.storage);
      var used := NameIsUsed(programXml);
      var used' := NameIsUsed(patchXml);
      if used || used' {
        return false;
      }
      AddMember(programXml, xml.write(ProgramDocument(c)));
      AddMember(patchXml, xml.write(PatchDocument(c)));
      return true;
    }

    method AddAllStorageXml() returns (ok: bool)
      requires forall i :: 0 <= i < |storages| ==> storages[i].storage != Unknown
      modifies this
      ensures ok <==> AddAllDocuments(xml, old(View()), |old(storages)|).Some?
      ensures ok ==> View() == AddAllDocuments(xml, old(View()), |old(storages)|).value
    {
      hide AddDocuments;
      ghost var k := View();
      for i := 0 to |storages|
        invariant storages == old(storages) && AddAllDocuments(xml, k, i) == Some(View())
      {
        ok := AddStorageXml(storages[i]);
        if !ok {
          DocumentsFail(xml, k, i + 1, |k.storages|);
          return false;
        }
        assert AddAllDocuments(xml, k, i + 1) == Some(View());
      }
      return true;
    }

    method BuildFlashmap(entries: seq<Option<bytes>>) returns (text: bytes)
      requires forall i :: 0 <= i < |entries| && entries[i].Some? ==> NoNul(entries[i].value)
      requires forall i :: 0 <= i < |storages| ==> storages[i].storage != Unknown
      ensures text == FlashmapText(entries, storages)
    {
      hide Flashmap.Pretty, FlashmapWriter.Printable;
      FilesArePrintable(storages);
      var json := new FlashmapWriter.JsonBuffer();
      json.BuildJson(entries, FilesOf(storages));
      text := json.buf;
    }

    /** `zipper_write` */
    method Write(ops: seq<Op>, images: seq<Option<Image>>) returns (ok: bool)
      requires View() == EMPTY_PACKAGE
      requires StringNames(images)
      modifies this
      ensures ok <==> WritePackage(xml, files, ops, images).Some?
      ensures ok ==> members == WritePackage(xml, files, ops, images).value
    {
      hide PackOps, AddImages, AddAllDocuments, AnyImage, FlashmapText, Text, NoNul;
      ok := WriteOps(ops);
      if !ok || storages == [] {
        return false;
      }
      ghost var k := View();
      var entries := AddProgrammerImages(images);
      if entries.None? {
        return false;
      }
      ok := AddAllStorageXml();
      if !ok {
        return false;
      }
      NamesAreStrings(k, images, |images|);
      var text := BuildFlashmap(entries.value);
      members := members[Text(FLASHMAP_NAME) := text];
      return true;
    }
  }

  // ----- Names are C strings

  lemma {:induction false} NamesAreStrings(k: Package, images: seq<Option<Image>>, n: nat)
    requires n <= |images| && AddImages(k, images, n).Some?
    requires StringNames(images)
    ensures forall i :: 0 <= i < n && AddImages(k, images, n).value.1[i].Some? ==>
              NoNul(AddImages(k, images, n).value.1[i].value)
  {
    hide NoNul, ImageName;
    if n > 0 {
      NamesAreStrings(k, images, n - 1);
      if images[n - 1].Some? {
        NameIsString(AddImages(k, images, n - 1).value.0, images[n - 1].value, n - 1);
      }
    }
  }

  lemma NameIsString(k: Package, image: Image, slot: nat)
    requires ImageName(k, image, slot).Some?
    requires image.name.Some? ==> NoNul(image.name.value)
    ensures NoNul(ImageName(k, image, slot).value)
  {
    hide Basename, Decimal;
    var path := if image.name.Some? then image.name.value else Text("programmer.bin");
    assert NoNul(path);
    BasenameIsString(path);
    assert NoNul(Text("sahara") + Decimal(slot) + Text("_"));
  }

  lemma FilesArePrintable(storages: seq<StorageContext>)
    requires forall i :: 0 <= i < |storages| ==> storages[i].storage != Unknown
    ensures forall i :: 0 <= i < |FilesOf(storages)| ==> FlashmapWriter.Printable(FilesOf(storages)[i])
  {
    hide FlashmapWriter.Printable;
    forall i | 0 <= i < |storages| ensures FlashmapWriter.Printable(FilesOf(storages)[i]) {
      StorageIsPrintable(storages[i].storage);
    }
  }

  /** Letters, underscores and dots. */
  predicate IsWord(s: bytes) { forall i :: 0 <= i < |s| ==> 35 <= s[i] < 92 || 93 <= s[i] < 127 }

  lemma MemoryIsWord(s: StorageType)
    requires s != Unknown
    ensures IsWord(Memory(s)) && IsWord(Text("_rawprogram.xml")) && IsWord(Text("_patch.xml"))
  {
    assert forall i :: 0 <= i < |EncodeStorageType(s).value| ==> 'a' <= EncodeStorageType(s).value[i] <= 'z';
  }

  lemma StorageIsPrintable(s: StorageType)
    requires s != Unknown
    ensures FlashmapWriter.Printable(FlashmapWriter.StorageFiles(Memory(s), ProgramXml(s), PatchXml(s)))
  {
    hide Memory, Text, Flashmap.EscapeBytes;
    MemoryIsWord(s);
    Flashmap.PlainEscapes(Memory(s));
  }
}

/** `contents_load`: the operations of the selected storages, from the program and patch files of a contents.xml. */
module ContentsLoad {
  import opened Bytes
  import opened Options
  import opened Ops
  import opened ProgramLoad
  import opened Selectors
  import opened ContentsSpec
  import opened ContentsFiles

  class ContentsReader {
    const xml: Xml
    const files: map<bytes, bytes>

    constructor (xml: Xml, files: map<bytes, bytes>)
      ensures this.xml == xml && this.files == files
    {
      this.xml, this.files := xml, files;
    }

    method LoadEntry(ops: OpList, e: ContentsEntry, s: Selector) returns (ok: bool)
      modifies ops
      ensures ok <==> LoadFile(xml, files, e, s).Some?
      ensures ok ==> ops.ops == old(ops.ops) + LoadFile(xml, files, e, s).value
    {
      hide LoadPatches, LoadTags;
      if e.path !in files {
        return false;
      }
      var doc := xml.read(files[e.path]);
      if doc.None? {
        return false;
      }
      if e.fileType.PatchFile? {
        ok := ops.PatchLoadXml(doc.value);
      } else {
        ok := ops.ProgramLoadXml(Directory(files), doc.value, s.storage == Nand, false);
      }
    }

    method LoadEntries(ops: OpList, entries: seq<ContentsEntry>, fileType: FileType, s: Selector) returns (ok: bool)
      modifies ops
      ensures ok <==> LoadKind(xml, files, entries, fileType, s).Some?
      ensures ok ==> ops.ops == old(ops.ops) + LoadKind(xml, files, entries, fileType, s).value
    {
      hide LoadFile;
      for i := 0 to |entries|
        invariant LoadKind(xml, files, entries[..i], fileType, s).Some?
        invariant ops.ops == old(ops.ops) + LoadKind(xml, files, entries[..i], fileType, s).value
      {
        var e := entries[i];
        assert entries[..i + 1][..i] == entries[..i];
        if e.fileType != fileType {
          continue;
        }
        if e.storage != Unknown && e.storage != s.storage {
          continue;
        }
        if e.flavor.Some? && !(s.flavor.Some? && e.flavor.value == s.flavor.value) {
          continue;
        }
        ok := LoadEntry(ops, e, s);
        if !ok {
          KindFails(xml, files, entries, fileType, s, i + 1);
          return false;
        }
      }
      assert entries[..|entries|] == entries;
      return true;
    }

    method LoadStorage(ops: OpList, c: Contents, s: Selector) returns (ok: bool)
      modifies ops
      ensures ok <==> LoadSelection(xml, files, c, s).Some?
      ensures ok ==> ops.ops == old(ops.ops) + LoadSelection(xml, files, c, s).value
    {
      hide LoadKind;
      ops.Append(Configure(s.storage));
      ok := LoadEntries(ops, c.entries, ProgramFile, s);
      if !ok {
        return;
      }
      ok := LoadEntries(ops, c.entries, PatchFile, s);
    }

    method LoadContents(ops: OpList, c: Contents, pattern: Option<bytes>) returns (ok: bool)
      modifies ops
      ensures ok <==> ContentsOps(xml, files, c, pattern).Some?
      ensures ok ==> ops.ops == old(ops.ops) + ContentsOps(xml, files, c, pattern).value
      ensures ok <==> Loads(xml, files, c, pattern)
      ensures ok ==> FromFiles(xml, files, c, pattern, ContentsOps(xml, files, c, pattern).value)
    {
      hide DecodeSelectors, LoadSelection, Loads, FromFiles;
      ContentsLoadIff(xml, files, c, pattern);
      if ContentsOps(xml, files, c, pattern).Some? { ContentsFromFiles(xml, files, c, pattern); }
      var decoded := ContentsDecodeSelectors(c, pattern);
      if decoded.None? || |decoded.value| == 0 {
        return false;
      }
      var selectors := decoded.value;
      for i := 0 to |selectors|
        invariant LoadSelections(xml, files, c, selectors[..i]).Some?
        invariant ops.ops == old(ops.ops) + LoadSelections(xml, files, c, selectors[..i]).value
      {
        assert selectors[..i + 1][..i] == selectors[..i];
        ok := LoadStorage(ops, c, selectors[i]);
        if !ok {
          SelectionsFail(xml, files, c, selectors, i + 1);
          return false;
        }
      }
      assert selectors[..|selectors|] == selectors;
      return true;
    }
  }
}

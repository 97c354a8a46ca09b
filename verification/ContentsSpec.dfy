/** What `contents_load` makes of a contents.xml: the operations of the selected storages. */
module ContentsSpec {
  import opened Bytes
  import opened Options
  import opened Ops
  import opened ProgramLoad
  import opened Selectors

  /** Whether a file belongs to a selection. */
  predicate Applies(e: ContentsEntry, fileType: FileType, s: Selector) {
    && e.fileType == fileType
    && (e.storage == Unknown || e.storage == s.storage)
    && (e.flavor.Some? ==> s.flavor.Some? && e.flavor.value == s.flavor.value)
  }

  /** `program_load` or `patch_load` on a file of the host. */
  function LoadFile(xml: Xml, files: map<bytes, bytes>, e: ContentsEntry, s: Selector): Option<seq<Op>> {
    if e.path !in files then None
    else
      match xml.read(files[e.path])
      case None => None
      case Some(doc) =>
        if e.fileType.PatchFile? then LoadPatches(doc.tags)
        else LoadTags(Directory(files), doc.tags, s.storage == Nand, false)
  }

  /** The operations of the files of one kind that belong to a selection, in the order of the entries. */
  function LoadKind(xml: Xml, files: map<bytes, bytes>, entries: seq<ContentsEntry>, fileType: FileType, s: Selector)
    : Option<seq<Op>>
  {
    if |entries| == 0 then Some([])
    else
      var before, e := LoadKind(xml, files, entries[..|entries| - 1], fileType, s), entries[|entries| - 1];
      if before.None? then None
      else if !Applies(e, fileType, s) then before
      else
        match LoadFile(xml, files, e, s)
        case None => None
        case Some(ops) => Some(before.value + ops)
  }

  /** One selection: the configuration of its storage, then its programs, then its patches. */
  function LoadSelection(xml: Xml, files: map<bytes, bytes>, c: Contents, s: Selector): Option<seq<Op>> {
    var programs, patches := LoadKind(xml, files, c.entries, ProgramFile, s),
        LoadKind(xml, files, c.entries, PatchFile, s);
    if programs.None? || patches.None? then None
    else Some([Configure(s.storage)] + (programs.value + patches.value))
  }

  function LoadSelections(xml: Xml, files: map<bytes, bytes>, c: Contents, selectors: seq<Selector>): Option<seq<Op>> {
    if |selectors| == 0 then Some([])
    else
      var before := LoadSelections(xml, files, c, selectors[..|selectors| - 1]);
      var last := LoadSelection(xml, files, c, selectors[|selectors| - 1]);
      if before.None? || last.None? then None else Some(before.value + last.value)
  }

  /** All the operations of a pattern. */
  function ContentsOps(xml: Xml, files: map<bytes, bytes>, c: Contents, pattern: Option<bytes>): Option<seq<Op>> {
    match DecodeSelectors(c, pattern)
    case None => None
    case Some(selectors) => if |selectors| == 0 then None else LoadSelections(xml, files, c, selectors)
  }

  lemma {:induction false} KindFails(xml: Xml, files: map<bytes, bytes>, entries: seq<ContentsEntry>,
                                     fileType: FileType,
                                     s: Selector, i: nat)
    requires i <= |entries| && LoadKind(xml, files, entries[..i], fileType, s).None?
    ensures LoadKind(xml, files, entries, fileType, s).None?
    decreases |entries| - i
  {
    hide LoadFile;
    if i < |entries| {
      assert entries[..i + 1][..i] == entries[..i];
      KindFails(xml, files, entries, fileType, s, i + 1);
    } else {
      assert entries[..i] == entries;
    }
  }

  lemma {:induction false} SelectionsFail(xml: Xml, files: map<bytes, bytes>, c: Contents, selectors: seq<Selector>,
                                          i: nat)
    requires i <= |selectors| && LoadSelections(xml, files, c, selectors[..i]).None?
    ensures LoadSelections(xml, files, c, selectors).None?
    decreases |selectors| - i
  {
    hide LoadSelection;
    if i < |selectors| {
      assert selectors[..i + 1][..i] == selectors[..i];
      SelectionsFail(xml, files, c, selectors, i + 1);
    } else {
      assert selectors[..i] == selectors;
    }
  }
}

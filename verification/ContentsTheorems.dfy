/** The operations of a contents.xml are ones that an installer package can carry. */
module ContentsTheorems {
  import opened Bytes
  import opened Options
  import opened Numerals
  import opened Files
  import opened Ops
  import opened Images
  import opened ProgramLoad
  import opened SparseFormat
  import opened SparseLoad
  import opened Meaning
  import opened PackagedTags
  import opened PackagedMeaning
  import opened Selectors
  import opened ContentsSpec
  import Tokens
  import Repackage
  import RepackageTheorems

  // ----- What loading makes

  /**
   * An operation as the loaders make it for a storage: its fields in range, its image there, and of
   * the storage's kind.
   */
  predicate Made(files: map<bytes, bytes>, isNand: bool, op: Op) {
    && WellFormed(op) && Present(files, op)
    && (op.Program? ==> op.p.isNand == isNand && !op.p.fromZip)
    && (op.Erase? ==> op.e.isNand == isNand && op.e.numSectors > 0)
  }

  predicate AllMade(files: map<bytes, bytes>, isNand: bool, ops: seq<Op>) {
    forall i :: 0 <= i < |ops| ==> Made(files, isNand, ops[i])
  }

  lemma EraseIsMade(files: map<bytes, bytes>, tag: Tag, isNand: bool)
    requires ReadErase(tag, isNand).Some?
    ensures Made(files, isNand, Erase(ReadErase(tag, isNand).value))
  {
    hide AttrUnsigned;
  }

  lemma PatchIsMade(files: map<bytes, bytes>, tag: Tag, isNand: bool)
    requires LoadPatch(tag).Some?
    ensures AllMade(files, isNand, LoadPatch(tag).value)
    ensures forall i :: 0 <= i < |LoadPatch(tag).value| ==> LoadPatch(tag).value[i].Patch?
  {
    hide AttrUnsigned;
  }

  lemma ProgramIsMade(files: map<bytes, bytes>, tag: Tag, isNand: bool)
    requires ReadProgram(Directory(files), tag, isNand).Some?
    ensures var p := ReadProgram(Directory(files), tag, isNand).value;
            WellFormed(Program(p)) && p.isNand == isNand && !p.fromZip
  {
    hide AttrUnsigned, AttrBool;
  }

  /** Every chunk operation is like the program it came from. */
  lemma {:induction false} ChunksAreMade(files: map<bytes, bytes>, p: ProgramOp, chunks: seq<Chunk>)
    requires 0 < p.sectorSize && p.startSector.Some? && SparseOps(p, chunks).Some?
    requires Made(files, p.isNand, Program(p))
    ensures var (ops, q) := SparseOps(p, chunks).value;
            AllMade(files, p.isNand, ProgramsOf(ops)) && Made(files, p.isNand, Program(q))
  {
    hide Strtoul, Decimal;
    if |chunks| > 0 {
      var c := chunks[|chunks| - 1];
      ChunksAreMade(files, p, chunks[..|chunks| - 1]);
      var (before, q) := SparseOps(p, chunks[..|chunks| - 1]).value;
      var (ops, _) := SparseOps(p, chunks).value;
      forall i | 0 <= i < |ops| ensures Made(files, p.isNand, ProgramsOf(ops)[i]) {
        if i < |before| { assert Made(files, p.isNand, ProgramsOf(before)[i]); }
      }
    }
  }

  lemma ExpandedIsMade(files: map<bytes, bytes>, tag: Tag, isNand: bool)
    requires ExpandProgram(Directory(files), tag, isNand, false).Some?
    ensures AllMade(files, isNand, ProgramsOf(ExpandProgram(Directory(files), tag, isNand, false).value))
  {
    hide ReadProgram, SparseOps, FileChunks, ParseHeader, WellFormed;
    ProgramIsMade(files, tag, isNand);
    var p := ReadProgram(Directory(files), tag, isNand).value;
    var ps := ExpandProgram(Directory(files), tag, isNand, false).value;
    if ps == [p] {
      assert Made(files, isNand, Program(p));
    } else {
      assert Made(files, isNand, Program(p));
      SparseIsMade(files, p);
    }
  }

  lemma SparseIsMade(files: map<bytes, bytes>, p: ProgramOp)
    requires Made(files, p.isNand, Program(p)) && p.filename.Some? && p.filename.value in files
    requires ExpandSparse(p, files[p.filename.value], Posix).Some?
    ensures AllMade(files, p.isNand, ProgramsOf(ExpandSparse(p, files[p.filename.value], Posix).value))
  {
    hide SparseOps, FileChunks, ParseHeader;
    var content := files[p.filename.value];
    var r := ExpandSparse(p, content, Posix).value;
    if r == [p.(sparse := false)] {
    } else {
      var chunks := FileChunks(content, Posix).value;
      ChunksAreMade(files, p, chunks);
      var (ops, q) := SparseOps(p, chunks).value;
      forall i | 0 <= i < |r| ensures Made(files, p.isNand, ProgramsOf(r)[i]) {
        if i < |ops| { assert Made(files, p.isNand, ProgramsOf(ops)[i]); }
      }
    }
  }

  lemma MadeJoin(files: map<bytes, bytes>, isNand: bool, a: seq<Op>, b: seq<Op>)
    requires AllMade(files, isNand, a) && AllMade(files, isNand, b)
    ensures AllMade(files, isNand, a + b)
  {
    hide Made;
  }

  predicate Kind(patches: bool, ops: seq<Op>) {
    forall i :: 0 <= i < |ops| ==> !ops[i].Configure? && ops[i].Patch? == patches
  }

  lemma {:induction false} TagsAreMade(files: map<bytes, bytes>, tags: seq<Tag>, isNand: bool)
    requires LoadTags(Directory(files), tags, isNand, false).Some?
    ensures AllMade(files, isNand, LoadTags(Directory(files), tags, isNand, false).value)
    ensures Kind(false, LoadTags(Directory(files), tags, isNand, false).value)
  {
    hide ReadErase, ExpandProgram, Made;
    if |tags| > 0 {
      var tag := tags[|tags| - 1];
      TagsAreMade(files, tags[..|tags| - 1], isNand);
      if tag.name == "erase" { EraseIsMade(files, tag, isNand); } else { ExpandedIsMade(files, tag, isNand); }
      MadeJoin(files, isNand, LoadTags(Directory(files), tags[..|tags| - 1], isNand, false).value,
               LoadTag(Directory(files), tag, isNand, false).value);
    }
  }

  lemma {:induction false} PatchesAreMade(files: map<bytes, bytes>, tags: seq<Tag>, isNand: bool)
    requires LoadPatches(tags).Some?
    ensures AllMade(files, isNand, LoadPatches(tags).value) && Kind(true, LoadPatches(tags).value)
  {
    hide LoadPatch, Made;
    if |tags| > 0 {
      PatchesAreMade(files, tags[..|tags| - 1], isNand);
      PatchIsMade(files, tags[|tags| - 1], isNand);
      PatchKind(tags[|tags| - 1]);
      MadeJoin(files, isNand, LoadPatches(tags[..|tags| - 1]).value, LoadPatch(tags[|tags| - 1]).value);
    }
  }

  lemma PatchKind(tag: Tag)
    requires LoadPatch(tag).Some?
    ensures Kind(true, LoadPatch(tag).value)
  {
    hide AttrUnsigned, AttrString;
  }

  lemma {:induction false} KindIsMade(xml: Xml, files: map<bytes, bytes>, entries: seq<ContentsEntry>,
                                      fileType: FileType, s: Selector)
    requires fileType.ProgramFile? || fileType.PatchFile?
    requires LoadKind(xml, files, entries, fileType, s).Some?
    ensures AllMade(files, s.storage == Nand, LoadKind(xml, files, entries, fileType, s).value)
    ensures Kind(fileType.PatchFile?, LoadKind(xml, files, entries, fileType, s).value)
  {
    hide LoadPatches, LoadTags, Made;
    if |entries| > 0 {
      var e := entries[|entries| - 1];
      KindIsMade(xml, files, entries[..|entries| - 1], fileType, s);
      if Applies(e, fileType, s) {
        var tags := xml.read(files[e.path]).value.tags;
        if fileType.PatchFile? { PatchesAreMade(files, tags, s.storage == Nand); }
        else { TagsAreMade(files, tags, s.storage == Nand); }
        MadeJoin(files, s.storage == Nand, LoadKind(xml, files, entries[..|entries| - 1], fileType, s).value,
                 LoadFile(xml, files, e, s).value);
      }
    }
  }

  // ----- Packing them

  /** Programs of images have labels: nothing else keeps a package of them from loading. */
  predicate Labelled(op: Op) { op.Program? && op.p.filename.Some? ==> op.p.partLabel.Some? }

  /** What is flashed says where it starts, and plain images are used from their start. */
  predicate Addressed(op: Op) {
    match op
    case Program(p) => p.filename.None? || (p.startSector.Some? && (!p.sparse ==> p.fileOffset == 0))
    case Erase(e) => e.startSector.Some?
    case Patch(q) => q.filename == Some(Text(DISK)) ==> q.startSector.Some?
    case Configure(_) => true
  }

  predicate AllLabelled(ops: seq<Op>) { forall i :: 0 <= i < |ops| ==> Labelled(ops[i]) }

  predicate AllAddressed(ops: seq<Op>) { forall i :: 0 <= i < |ops| ==> Addressed(ops[i]) }

  lemma MadeMeans(files: map<bytes, bytes>, isNand: bool, op: Op)
    requires Made(files, isNand, op)
    ensures Readable(isNand, op) <==> Labelled(op)
    ensures Faithful(isNand, op) <==> Addressed(op)
  {
    hide Text;
  }

  lemma {:induction false} SegmentIn(files: map<bytes, bytes>, s: StorageType, before: seq<Op>, c: StorageType,
                                     xs: seq<Op>)
    requires NoConfigure(xs) && (c == s ==> AllMade(files, s == Nand, xs))
    ensures Current(before + ([Configure(c)] + xs)) == Some(c)
    ensures ReadableIn(s, before + ([Configure(c)] + xs)) <==> ReadableIn(s, before) && (c == s ==> AllLabelled(xs))
    ensures FaithfulIn(s, before + ([Configure(c)] + xs)) <==> FaithfulIn(s, before) && (c == s ==> AllAddressed(xs))
  {
    hide Made, Readable, Faithful, Labelled, Addressed;
    var ops := before + ([Configure(c)] + xs);
    if |xs| == 0 {
      assert ops[..|ops| - 1] == before;
      assert Readable(s == Nand, Configure(c)) && Faithful(s == Nand, Configure(c))
          by { ConfigureIsFine(s == Nand, c); }
    } else {
      var init := xs[..|xs| - 1];
      assert ops[..|ops| - 1] == before + ([Configure(c)] + init);
      SegmentIn(files, s, before, c, init);
      if c == s { MadeMeans(files, s == Nand, xs[|xs| - 1]); }
      assert xs == init + [xs[|xs| - 1]];
    }
  }

  lemma ConfigureIsFine(isNand: bool, c: StorageType)
    ensures Readable(isNand, Configure(c)) && Faithful(isNand, Configure(c))
  {
  }

  // ----- One storage after the other

  /** What is known about the operations of a list of selections. */
  ghost predicate Packable(files: map<bytes, bytes>, ops: seq<Op>) {
    && Proper(files, ops)
    && (Repackage.AllReadable(ops) <==> AllLabelled(ops))
    && (Repackage.AllFaithful(ops) <==> AllAddressed(ops))
  }

  lemma LabelledJoin(a: seq<Op>, b: seq<Op>)
    ensures AllLabelled(a + b) <==> AllLabelled(a) && AllLabelled(b)
    ensures AllAddressed(a + b) <==> AllAddressed(a) && AllAddressed(b)
  {
    hide Labelled, Addressed;
    var ab := a + b;
    assert forall i :: 0 <= i < |a| ==> ab[i] == a[i];
    assert forall i :: 0 <= i < |b| ==> ab[|a| + i] == b[i];
  }

  lemma ConfigureAlone(files: map<bytes, bytes>, c: StorageType)
    ensures AllLabelled([Configure(c)]) && AllAddressed([Configure(c)])
    ensures WellFormed(Configure(c)) && Present(files, Configure(c))
  {
  }

  lemma NothingPackable(files: map<bytes, bytes>)
    ensures Packable(files, [])
  {
  }

  lemma NothingTraced(src: Sources, storageSize: nat, s: StorageType)
    ensures Trace(src, storageSize, s, All, []) == Some([])
  {
  }

  lemma PackableMore(files: map<bytes, bytes>, before: seq<Op>, c: StorageType, xs: seq<Op>)
    requires Packable(files, before) && NoConfigure(xs) && AllMade(files, c == Nand, xs)
    ensures Packable(files, before + ([Configure(c)] + xs))
  {
    hide ReadableIn, FaithfulIn, AllLabelled, AllAddressed;
    var ops := before + ([Configure(c)] + xs);
    forall s
      ensures ReadableIn(s, ops) <==> ReadableIn(s, before) && (c == s ==> AllLabelled(xs))
      ensures FaithfulIn(s, ops) <==> FaithfulIn(s, before) && (c == s ==> AllAddressed(xs))
    {
      SegmentIn(files, s, before, c, xs);
    }
    assert Repackage.AllReadable(ops) <==> Repackage.AllReadable(before) && AllLabelled(xs) by {
      if Repackage.AllReadable(ops) {
        assert ReadableIn(c, ops);
        forall s ensures ReadableIn(s, before) { assert ReadableIn(s, ops); }
      }
    }
    assert Repackage.AllFaithful(ops) <==> Repackage.AllFaithful(before) && AllAddressed(xs) by {
      if Repackage.AllFaithful(ops) {
        assert FaithfulIn(c, ops);
        forall s ensures FaithfulIn(s, before) { assert FaithfulIn(s, ops); }
      }
    }
    LabelledJoin(before, [Configure(c)] + xs);
    LabelledJoin([Configure(c)], xs);
    ConfigureAlone(files, c);
    ProperMore(files, before, c, xs);
  }

  lemma ProperMore(files: map<bytes, bytes>, before: seq<Op>, c: StorageType, xs: seq<Op>)
    requires Proper(files, before) && AllMade(files, c == Nand, xs)
    ensures Proper(files, before + ([Configure(c)] + xs))
  {
    hide WellFormed, Present;
    var ops := before + ([Configure(c)] + xs);
    forall i | 0 <= i < |ops| ensures WellFormed(ops[i]) && Present(files, ops[i]) {
      if i < |before| {
        assert ops[i] == before[i];
      } else if i == |before| {
        assert ops[i] == Configure(c);
        ConfigureAlone(files, c);
      } else {
        assert ops[i] == xs[i - |before| - 1] && Made(files, c == Nand, xs[i - |before| - 1]);
      }
    }
  }

  lemma SelectionIsMade(xml: Xml, files: map<bytes, bytes>, c: Contents, s: Selector)
    requires LoadSelection(xml, files, c, s).Some?
    ensures LoadKind(xml, files, c.entries, ProgramFile, s).Some? && LoadKind(xml, files, c.entries, PatchFile, s).Some?
    ensures var programs, patches := LoadKind(xml, files, c.entries, ProgramFile, s).value,
         LoadKind(xml, files, c.entries, PatchFile, s).value;
            && LoadSelection(xml, files, c, s).value == [Configure(s.storage)] + (programs + patches)
            && Kind(false, programs) && Kind(true, patches) && NoConfigure(programs + patches)
            && AllMade(files, s.storage == Nand, programs + patches)
  {
    hide LoadKind, Made;
    KindIsMade(xml, files, c.entries, ProgramFile, s);
    KindIsMade(xml, files, c.entries, PatchFile, s);
    MadeJoin(files, s.storage == Nand, LoadKind(xml, files, c.entries, ProgramFile, s).value,
             LoadKind(xml, files, c.entries, PatchFile, s).value);
  }

  lemma {:induction false} SelectionsArePackable(xml: Xml, files: map<bytes, bytes>, c: Contents,
                                                 selectors: seq<Selector>)
    requires LoadSelections(xml, files, c, selectors).Some?
    ensures Packable(files, LoadSelections(xml, files, c, selectors).value)
  {
    hide LoadSelection, Packable, NoConfigure, AllMade;
    if |selectors| > 0 {
      var init, s := selectors[..|selectors| - 1], selectors[|selectors| - 1];
      SelectionsArePackable(xml, files, c, init);
      SelectionIsMade(xml, files, c, s);
      var programs, patches := LoadKind(xml, files, c.entries, ProgramFile, s).value,
          LoadKind(xml, files, c.entries, PatchFile, s).value;
      PackableMore(files, LoadSelections(xml, files, c, init).value, s.storage, programs + patches);
    } else {
      NothingPackable(files);
    }
  }

  // ----- Patches come last

  lemma {:induction false} FlatKind(src: Sources, storageSize: nat, patches: bool, ops: seq<Op>)
    requires Kind(patches, ops) && Flat(src, storageSize, ops).Some?
    ensures forall i :: 0 <= i < |Flat(src, storageSize, ops).value| ==>
              Flat(src, storageSize, ops).value[i].Edit? == patches
  {
    hide Actions;
    if |ops| > 0 {
      FlatKind(src, storageSize, patches, ops[..|ops| - 1]);
      ActionKinds(src, storageSize, ops[|ops| - 1]);
    }
  }

  /** A storage that is not selected receives nothing. */
  lemma {:induction false} NotSelected(xml: Xml, src: Sources, storageSize: nat, c: Contents, selectors: seq<Selector>,
                                       s: StorageType)
    requires LoadSelections(xml, src.files, c, selectors).Some?
    requires forall i :: 0 <= i < |selectors| ==> selectors[i].storage != s
    ensures Trace(src, storageSize, s, All, LoadSelections(xml, src.files, c, selectors).value) == Some([])
  {
    hide LoadSelection, Trace, NoConfigure;
    if |selectors| > 0 {
      var init, last := selectors[..|selectors| - 1], selectors[|selectors| - 1];
      NotSelected(xml, src, storageSize, c, init, s);
      SelectionIsMade(xml, src.files, c, last);
      var programs, patches := LoadKind(xml, src.files, c.entries, ProgramFile, last).value,
          LoadKind(xml, src.files, c.entries, PatchFile, last).value;
      Repackage.SegmentTrace(src, storageSize, s, LoadSelections(xml, src.files, c, init).value, last.storage,
                             programs + patches);
    } else {
      NothingTraced(src, storageSize, s);
    }
  }

  lemma {:induction false} SelectionsAreArranged(xml: Xml, src: Sources, storageSize: nat, c: Contents,
                                                 selectors: seq<Selector>,
                                                 s: StorageType)
    requires LoadSelections(xml, src.files, c, selectors).Some? && DistinctStorages(selectors)
    ensures RepackageTheorems.ArrangedOn(src, storageSize, s, LoadSelections(xml, src.files, c, selectors).value)
  {
    hide LoadSelection, Trace, NoConfigure, Flat, Kind;
    if |selectors| > 0 {
      var init, last := selectors[..|selectors| - 1], selectors[|selectors| - 1];
      SelectionsAreArranged(xml, src, storageSize, c, init, s);
      SelectionIsMade(xml, src.files, c, last);
      var programs, patches := LoadKind(xml, src.files, c.entries, ProgramFile, last).value,
          LoadKind(xml, src.files, c.entries, PatchFile, last).value;
      Repackage.SegmentTrace(src, storageSize, s, LoadSelections(xml, src.files, c, init).value, last.storage,
                             programs + patches);
      if s == last.storage {
        NotSelected(xml, src, storageSize, c, init, s);
        Repackage.NothingBefore(Flat(src, storageSize, programs + patches));
        FlatIsArranged(src, storageSize, programs, patches);
      }
    } else {
      NothingTraced(src, storageSize, s);
    }
  }

  lemma FlatIsArranged(src: Sources, storageSize: nat, programs: seq<Op>, patches: seq<Op>)
    requires Kind(false, programs) && Kind(true, patches)
    ensures Flat(src, storageSize, programs + patches).Some? ==>
              PatchesLast(Flat(src, storageSize, programs + patches).value)
  {
    hide Flat, Kind;
    FlatJoins(src, storageSize, programs, patches);
    if Flat(src, storageSize, programs + patches).Some? {
      FlatKind(src, storageSize, false, programs);
      FlatKind(src, storageSize, true, patches);
    }
  }

  // ----- The whole way

  /** The operations of a contents.xml, for any pattern: what a package of them needs to load and to mean the same. */
  lemma ContentsArePackable(xml: Xml, src: Sources, storageSize: nat, c: Contents, pattern: Option<bytes>)
    requires ContentsOps(xml, src.files, c, pattern).Some?
    ensures Packable(src.files, ContentsOps(xml, src.files, c, pattern).value)
    ensures RepackageTheorems.Arranged(src, storageSize, ContentsOps(xml, src.files, c, pattern).value)
  {
    hide LoadSelections, Packable, RepackageTheorems.ArrangedOn, DecodeTokens, AllValid;
    var selectors := DecodeSelectors(c, pattern).value;
    DecodedAreDistinct(c, pattern);
    SelectionsArePackable(xml, src.files, c, selectors);
    forall s ensures RepackageTheorems.ArrangedOn(src, storageSize, s, ContentsOps(xml, src.files, c, pattern).value) {
      SelectionsAreArranged(xml, src, storageSize, c, selectors, s);
    }
  }

  lemma DecodedAreDistinct(c: Contents, pattern: Option<bytes>)
    requires DecodeSelectors(c, pattern).Some?
    ensures DistinctStorages(DecodeSelectors(c, pattern).value)
  {
    hide DecodeTokens, AllValid;
    if pattern.Some? { TokensExactly(c, Tokens.AllTokens(pattern.value, 0, COMMA), DecodeSelectors(c, pattern).value); }
  }

  /**
   * From contents.xml to a package to the device: if all images have labels, if start
   * sectors are given and plain images used from their start, and if the images of the
   * boot chain are in slots other than 0 and not empty, then the package loads, and
   * flashing it leaves every storage as flashing the files themselves does.
   */
  lemma ContentsToPackage(xml: Xml, files: map<bytes, bytes>, c: Contents, pattern: Option<bytes>, ops: seq<Op>,
                          images: ImageTable, archive: map<bytes, bytes>, storageSize: nat, w: World, pr: Programmer)
    requires ContentsOps(xml, files, c, pattern) == Some(ops) && w.current.None?
    requires RepackageTheorems.Installer(xml, files, ops, images, archive)
    requires AllLabelled(ops) && AllAddressed(ops)
    requires Repackage.ImagesReadable(images, RepackageTheorems.Names(xml, files, ops, images))
    ensures RepackageTheorems.LoadPackage(xml, archive).Some?
    ensures RepackageTheorems.EndAlike(Run(w, pr, Sources(files, archive), storageSize, ops),
                                       Run(w, pr, Sources(files, archive), storageSize,
                                           RepackageTheorems.LoadPackage(xml, archive).value.1))
  {
    hide ContentsOps, RepackageTheorems.Installer, Repackage.ImagesReadable, RepackageTheorems.Names,
        RepackageTheorems.LoadPackage;
    hide Run, Repackage.AllReadable, Repackage.AllFaithful, RepackageTheorems.Arranged, Proper, AllLabelled,
        AllAddressed;
    ContentsArePackable(xml, Sources(files, archive), storageSize, c, pattern);
    RepackageTheorems.PackageRoundTrip(xml, files, ops, images, archive, storageSize);
    RepackageTheorems.FlashingThePackage(xml, files, ops, images, archive, storageSize, w, pr);
  }
}

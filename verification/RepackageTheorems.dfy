/** The package as a whole: when it loads, what it loads, and what flashing it leaves behind. */
module RepackageTheorems {
  import opened Bytes
  import opened Options
  import opened Ops
  import opened Images
  import opened ProgramLoad
  import opened Meaning
  import opened ZipperSpec
  import opened PackagedMembers
  import opened PackagedMeaning
  import opened PackagedFlashmap
  import opened Repackage
  import Flashmap
  import FlashmapLoad
  import JsonSpec
  import Zipper

  /** A package that was written, with documents and a flashmap that the libraries take. */
  ghost predicate Installer(xml: Xml, files: map<bytes, bytes>, ops: seq<Op>, images: ImageTable,
                            archive: map<bytes, bytes>) {
    && |images| == IMAGE_SLOTS && Proper(files, ops) && StringNames(images)
    && WritePackage(xml, files, ops, images) == Some(archive)
    && DocumentsSurvive(xml, Written(xml, files, ops, images).storages)
    && |FlashmapText(Names(xml, files, ops, images), Written(xml, files, ops, images).storages)| <= JsonSpec.INT_MAX
  }

  function Written(xml: Xml, files: map<bytes, bytes>, ops: seq<Op>, images: ImageTable): (k: Package)
    requires PackAll(xml, files, ops, images).Some?
    ensures forall i :: 0 <= i < |k.storages| ==> k.storages[i].storage != Unknown
  {
    PackAll(xml, files, ops, images).value.0
  }

  /** The names that the programmer images have in the package. */
  function Names(xml: Xml, files: map<bytes, bytes>, ops: seq<Op>, images: ImageTable): seq<Option<bytes>>
    requires PackAll(xml, files, ops, images).Some?
  {
    PackAll(xml, files, ops, images).value.1
  }

  /** Flashing the package: what `flashmap_load` makes of it. */
  function LoadPackage(xml: Xml, archive: map<bytes, bytes>): (r: Option<(ImageTable, seq<Op>)>)
    ensures r.Some? ==> |r.value.0| == IMAGE_SLOTS
  {
    FlashmapLoad.Load(xml, Archive(archive), NoImages(), Text(FLASHMAP_NAME), None, None)
  }

  lemma OneStored(xml: Xml, archive: map<bytes, bytes>, c: StorageContext)
    requires HasDocuments(xml, archive, c) && Survives(xml, ProgramDocument(c)) && Survives(xml, PatchDocument(c))
    ensures StorageStored(xml, Archive(archive), c)
  {
  }

  lemma AllStored(xml: Xml, archive: map<bytes, bytes>, storages: seq<StorageContext>)
    requires DocumentsSurvive(xml, storages) && forall i :: 0 <= i < |storages| ==>
              HasDocuments(xml, archive, storages[i])
    ensures StoragesStored(xml, Archive(archive), storages)
  {
    hide Survives;
    forall i | 0 <= i < |storages| ensures StorageStored(xml, Archive(archive), storages[i]) {
      OneStored(xml, archive, storages[i]);
    }
  }

  /** The names are C strings. */
  lemma NamesHold(xml: Xml, files: map<bytes, bytes>, ops: seq<Op>, images: ImageTable)
    requires StringNames(images) && PackAll(xml, files, ops, images).Some?
    ensures forall i :: 0 <= i < |Names(xml, files, ops, images)| && Names(xml, files, ops, images)[i].Some? ==>
              NoNul(Names(xml, files, ops, images)[i].value)
    ensures |Names(xml, files, ops, images)| == |images|
  {
    hide PackOps, AddAllDocuments, AnyImage, NoNul, ImageName;
    Zipper.NamesAreStrings(PackOps(files, ops).value, images, |images|);
  }

  lemma NotEmpty(entries: seq<Option<bytes>>, storages: seq<StorageContext>)
    requires forall i :: 0 <= i < |storages| ==> storages[i].storage != Unknown
    ensures FlashmapText(entries, storages) != []
  {
    hide Flashmap.Pretty;
    var t := FlashmapText(entries, storages);
    assert t[|t| - 1] == 10;
  }

  /** What loading the package comes to. */
  lemma PackageLoads(xml: Xml, files: map<bytes, bytes>, ops: seq<Op>, images: ImageTable, archive: map<bytes, bytes>)
    requires Installer(xml, files, ops, images, archive)
    ensures var (k, entries) := PackAll(xml, files, ops, images).value;
            var place := Archive(archive);
            LoadPackage(xml, archive)
            == if Loadable(place, entries) && AllStorageOps(place, k.storages).Some?
               then Some((Overlay(place, NoImages(), entries), AllStorageOps(place, k.storages).value)) else None
  {
    hide PackAll, HasDocuments, DocumentsSurvive, Loadable, AllStorageOps, Overlay, ImagesStored, FlashmapText,
        StringNames;
    hide Proper, Text, FlashmapLoad.Interpret, JsonSpec.Parse, AnyImage, StoragesStored, Flashmap.DocValue, NoNul;
    var k, entries := Written(xml, files, ops, images), Names(xml, files, ops, images);
    FinishedMembers(xml, files, ops, images, archive);
    AllStored(xml, archive, k.storages);
    NamesHold(xml, files, ops, images);
    FlashmapParses(entries, k.storages);
    FlashmapMeans(xml, Archive(archive), entries, k.storages);
  }

  ghost predicate SameTraces(src: Sources, storageSize: nat, ops: seq<Op>, loaded: seq<Op>) {
    forall s :: SortedTrace(src, storageSize, s, ops, loaded)
  }

  /** On storage `s` the loaded operations do what the operations did, the patches moved to the end. */
  ghost predicate SortedTrace(src: Sources, storageSize: nat, s: StorageType, ops: seq<Op>, loaded: seq<Op>) {
    Trace(src, storageSize, s, All, loaded)
    == Joined(Trace(src, storageSize, s, Stores, ops), Trace(src, storageSize, s, Edits, ops))
  }

  /** Slot by slot the images that were packed, under their names in the package. */
  predicate SameImages(images: ImageTable, entries: seq<Option<bytes>>, table: ImageTable, flashmap: bytes) {
    && |images| == |entries| == |table|
    && forall i :: 0 <= i < |table| ==> table[i] == LoadedImage(images[i], entries[i], flashmap)
  }

  /**
   * A package that was written loads exactly when every operation is readable and every
   * image is in a slot other than 0 and not empty. It then loads the images that were
   * packed, and operations that do to each storage what the packed ones did.
   */
  lemma PackageRoundTrip(xml: Xml, files: map<bytes, bytes>, ops: seq<Op>, images: ImageTable,
                         archive: map<bytes, bytes>,
                         storageSize: nat)
    requires Installer(xml, files, ops, images, archive)
    ensures LoadPackage(xml, archive).Some?
        <==> AllReadable(ops) && ImagesReadable(images, Names(xml, files, ops, images))
    ensures LoadPackage(xml, archive).Some? ==>
              SameImages(images, Names(xml, files, ops, images), LoadPackage(xml, archive).value.0,
                         FlashmapText(Names(xml, files, ops, images), Written(xml, files, ops, images).storages))
    ensures LoadPackage(xml, archive).Some? && AllFaithful(ops) ==>
              SameTraces(Sources(files, archive), storageSize, ops, LoadPackage(xml, archive).value.1)
    ensures LoadPackage(xml, archive).Some? && 0 < storageSize ==>
              (SameTraces(Sources(files, archive), storageSize, ops, LoadPackage(xml, archive).value.1)
               <==> AllKept(Sources(files, archive), storageSize, ops))
  {
    hide PackAll, PackOps, HasDocuments, DocumentsSurvive, Loadable, AllStorageOps, Overlay, ImagesStored, FlashmapText;
    hide Proper, Text, LoadPackage, AnyImage, ReadableIn, FaithfulIn, Trace, Extends, ImagesReadable, LoadedImage,
        StringNames;
    var k, entries := Written(xml, files, ops, images), Names(xml, files, ops, images);
    var text := FlashmapText(entries, k.storages);
    var src := Sources(files, archive);
    PackageLoads(xml, files, ops, images, archive);
    FinishedMembers(xml, files, ops, images, archive);
    NotEmpty(entries, k.storages);
    ImagesLoad(Archive(archive), k.members, images, entries, text);
    StoragesLoad(src, storageSize, ops);
    if LoadPackage(xml, archive).Some? {
      TracesIff(src, storageSize, ops, LoadPackage(xml, archive).value.1);
    }
  }

  lemma TracesIff(src: Sources, storageSize: nat, ops: seq<Op>, loaded: seq<Op>)
    requires PackOps(src.files, ops).Some? && Proper(src.files, ops) && AllReadable(ops)
    requires Extends(PackOps(src.files, ops).value.members, src.archive)
    requires AllStorageOps(Archive(src.archive), PackOps(src.files, ops).value.storages) == Some(loaded)
    ensures AllFaithful(ops) ==> SameTraces(src, storageSize, ops, loaded)
    ensures 0 < storageSize ==> (SameTraces(src, storageSize, ops, loaded) <==> AllKept(src, storageSize, ops))
  {
    hide PackOps, AllStorageOps, Proper, ReadableIn, FaithfulIn, Trace, Extends, KeptIn;
    forall s
      ensures FaithfulIn(s, ops) ==> SortedTrace(src, storageSize, s, ops, loaded)
      ensures 0 < storageSize ==>
                (SortedTrace(src, storageSize, s, ops, loaded) <==> KeptIn(src, storageSize, s, All, ops))
    {
      LoadedTrace(src, storageSize, s, ops);
    }
    if AllFaithful(ops) {
      forall s ensures SortedTrace(src, storageSize, s, ops, loaded) { assert FaithfulIn(s, ops); }
    }
    if 0 < storageSize && SameTraces(src, storageSize, ops, loaded) {
      forall s ensures KeptIn(src, storageSize, s, All, ops) { assert SortedTrace(src, storageSize, s, ops, loaded); }
    }
    if 0 < storageSize && AllKept(src, storageSize, ops) {
      forall s ensures SortedTrace(src, storageSize, s, ops, loaded) {
        assert KeptIn(src, storageSize, s, All, ops);
      }
    }
  }

  /** The order is kept, too, exactly when no write or erase followed a patch on the same storage. */
  lemma OrderIff(src: Sources, storageSize: nat, s: StorageType, ops: seq<Op>, loaded: seq<Op>)
    requires SortedTrace(src, storageSize, s, ops, loaded)
    ensures Trace(src, storageSize, s, All, loaded).Some? <==> Trace(src, storageSize, s, All, ops).Some?
    ensures Trace(src, storageSize, s, All, loaded) == Trace(src, storageSize, s, All, ops)
        <==> (Trace(src, storageSize, s, All, ops).Some? ==> PatchesLast(Trace(src, storageSize, s, All, ops).value))
  {
    hide Trace, Filtered, PatchesLast;
    PartsOfTrace(src, storageSize, s, ops);
    if Trace(src, storageSize, s, All, ops).Some? {
      ArrangedIff(Trace(src, storageSize, s, All, ops).value);
    }
  }

  // ----- The flash contents

  lemma OpConfigured(files: map<bytes, bytes>, k: Package, current: Option<StorageType>, op: Op)
    requires Follows(k, current) && PackOp(files, k, op).Some?
    ensures if op.Configure? then op.storage != Unknown else current.Some?
  {
    hide Register, ProgramTag, EraseTag, PatchTag, Text;
  }

  lemma {:induction false} OpsConfigured(files: map<bytes, bytes>, ops: seq<Op>)
    requires PackOps(files, ops).Some?
    ensures Configured(ops)
  {
    hide PackOp, Current, Follows;
    if |ops| > 0 {
      var init := ops[..|ops| - 1];
      OpsConfigured(files, init);
      OpsFollow(files, init);
      OpConfigured(files, PackOps(files, init).value, Current(init), ops[|ops| - 1]);
      forall i | 0 <= i < |ops| ensures ConfiguredAt(ops, i) {
        if i < |init| { assert ConfiguredAt(init, i) && init[..i] == ops[..i]; }
      }
    }
  }

  lemma {:induction false} SegmentConfigured(before: seq<Op>, c: StorageType, xs: seq<Op>)
    requires Configured(before) && c != Unknown && NoConfigure(xs)
    ensures Configured(before + ([Configure(c)] + xs))
  {
    var ops := before + ([Configure(c)] + xs);
    forall i | 0 <= i < |ops| ensures ConfiguredAt(ops, i) {
      if i < |before| {
        assert ConfiguredAt(before, i) && ops[..i] == before[..i];
      } else if i > |before| {
        var n := i - |before| - 1;
        assert ops[..i] == before + ([Configure(c)] + xs[..n]);
        SegmentTrace(Sources(map[], map[]), 0, c, before, c, xs[..n]);
      }
    }
  }

  lemma NothingConfigured()
    ensures Configured([])
  {
  }

  lemma {:induction false} LoadedConfigured(src: Sources, storages: seq<StorageContext>)
    requires forall i :: 0 <= i < |storages| ==> Loads(src, storages[i]) && storages[i].storage != Unknown
    ensures AllStorageOps(Archive(src.archive), storages).Some?
    ensures Configured(AllStorageOps(Archive(src.archive), storages).value)
  {
    hide LoadTags, LoadPatches, Configured;
    if |storages| > 0 {
      var init, c := storages[..|storages| - 1], storages[|storages| - 1];
      LoadedConfigured(src, init);
      var programs := LoadTags(Archive(src.archive), c.programs, c.storage == Nand, false).value;
      var patches := LoadPatches(c.patches).value;
      assert [Configure(c.storage)] + programs + patches == [Configure(c.storage)] + (programs + patches);
      SegmentConfigured(AllStorageOps(Archive(src.archive), init).value, c.storage, programs + patches);
    } else {
      NothingConfigured();
    }
  }

  /** Patches come last on every storage. */
  ghost predicate Arranged(src: Sources, storageSize: nat, ops: seq<Op>) {
    forall s :: ArrangedOn(src, storageSize, s, ops)
  }

  predicate ArrangedOn(src: Sources, storageSize: nat, s: StorageType, ops: seq<Op>) {
    Trace(src, storageSize, s, All, ops).Some? ==> PatchesLast(Trace(src, storageSize, s, All, ops).value)
  }

  /** Two runs that end alike: both fail, or both leave every storage with the same contents. */
  ghost predicate EndAlike(a: Option<World>, b: Option<World>) {
    && (a.Some? <==> b.Some?)
    && (a.Some? ==> forall s :: FlashOf(a.value, s) == FlashOf(b.value, s))
  }

  /** Flashing the package leaves what flashing the files leaves, its operations being kept with these files. */
  lemma FlashingThePackage(xml: Xml, files: map<bytes, bytes>, ops: seq<Op>, images: ImageTable,
                           archive: map<bytes, bytes>,
                           storageSize: nat, w: World, pr: Programmer)
    requires Installer(xml, files, ops, images, archive) && w.current.None?
    requires LoadPackage(xml, archive).Some? && Arranged(Sources(files, archive), storageSize, ops)
    requires AllFaithful(ops) || (0 < storageSize && AllKept(Sources(files, archive), storageSize, ops))
    ensures EndAlike(Run(w, pr, Sources(files, archive), storageSize, ops),
                     Run(w, pr, Sources(files, archive), storageSize, LoadPackage(xml, archive).value.1))
  {
    hide PackAll, PackOps, Written, Names, AllStorageOps, Overlay, ImagesStored, FlashmapText, LoadPackage, AllReadable;
    hide Proper, Trace, Extends, ImagesReadable, LoadedImage, Configured, Run, Loads, StringNames, DocumentsSurvive,
        AllFaithful, AllKept;
    var src, loaded := Sources(files, archive), LoadPackage(xml, archive).value.1;
    PackageRoundTrip(xml, files, ops, images, archive, storageSize);
    LoadedIsConfigured(xml, files, ops, images, archive, storageSize);
    forall s ensures Trace(src, storageSize, s, All, loaded) == Trace(src, storageSize, s, All, ops) {
      assert SortedTrace(src, storageSize, s, ops, loaded) && ArrangedOn(src, storageSize, s, ops);
      OrderIff(src, storageSize, s, ops, loaded);
    }
    RunIsTraces(w, pr, src, storageSize, ops);
    RunIsTraces(w, pr, src, storageSize, loaded);
    SameEnds(w, pr, src, storageSize, ops, loaded);
  }

  lemma LoadedIsConfigured(xml: Xml, files: map<bytes, bytes>, ops: seq<Op>, images: ImageTable,
                           archive: map<bytes, bytes>,
                           storageSize: nat)
    requires Installer(xml, files, ops, images, archive) && LoadPackage(xml, archive).Some? && AllReadable(ops)
    ensures Configured(ops) && Configured(LoadPackage(xml, archive).value.1)
  {
    hide PackAll, PackOps, HasDocuments, DocumentsSurvive, Loadable, AllStorageOps, Overlay, ImagesStored, FlashmapText;
    hide Proper, Text, LoadPackage, AnyImage, AllReadable, Extends, Loads, Configured, StringNames;
    PackageLoads(xml, files, ops, images, archive);
    FinishedMembers(xml, files, ops, images, archive);
    OpsConfigured(files, ops);
    var src, k := Sources(files, archive), Written(xml, files, ops, images);
    StoragesLoad(src, storageSize, ops);
    LoadedConfigured(src, k.storages);
  }

  lemma SameEnds(w: World, pr: Programmer, src: Sources, storageSize: nat, ops: seq<Op>, loaded: seq<Op>)
    requires forall s :: Trace(src, storageSize, s, All, loaded) == Trace(src, storageSize, s, All, ops)
    requires Run(w, pr, src, storageSize, ops).Some? <==> NoFailure(src, storageSize, ops)
    requires Run(w, pr, src, storageSize, loaded).Some? <==> NoFailure(src, storageSize, loaded)
    requires Run(w, pr, src, storageSize, ops).Some? ==>
               AllTraced(w, Run(w, pr, src, storageSize, ops).value, pr, src, storageSize, ops)
    requires Run(w, pr, src, storageSize, loaded).Some? ==>
               AllTraced(w, Run(w, pr, src, storageSize, loaded).value, pr, src, storageSize, loaded)
    ensures EndAlike(Run(w, pr, src, storageSize, ops), Run(w, pr, src, storageSize, loaded))
  {
    hide Run, Trace, Perform;
    var a, b := Run(w, pr, src, storageSize, ops), Run(w, pr, src, storageSize, loaded);
    if a.Some? && b.Some? {
      forall s ensures FlashOf(a.value, s) == FlashOf(b.value, s) {
        assert Traced(w, a.value, pr, src, storageSize, ops, s) && Traced(w, b.value, pr, src, storageSize, loaded, s);
      }
    }
  }

  /** `create-zip`, and then reading the package: the images and operations that would be flashed. */
  method CreateZipThenLoad(xml: Xml, files: map<bytes, bytes>, ops: seq<Op>, images: ImageTable, ghost storageSize: nat)
    returns (archive: Option<map<bytes, bytes>>, loaded: Option<(ImageTable, seq<Op>)>)
    requires |images| == IMAGE_SLOTS && StringNames(images)
    ensures archive == WritePackage(xml, files, ops, images)
    ensures archive.Some? ==> loaded == LoadPackage(xml, archive.value)
    ensures archive.Some? && Installer(xml, files, ops, images, archive.value) && loaded.Some? && AllFaithful(ops) ==>
              SameTraces(Sources(files, archive.value), storageSize, ops, loaded.value.1)
    ensures archive.Some? && Installer(xml, files, ops, images, archive.value) && loaded.Some? && 0 < storageSize ==>
              (SameTraces(Sources(files, archive.value), storageSize, ops, loaded.value.1)
               <==> AllKept(Sources(files, archive.value), storageSize, ops))
  {
    hide AllKept, WritePackage, FlashmapLoad.Load, Installer, SameTraces, AllFaithful, AllReadable, ImagesReadable,
        LoadedImage,
        Names, Written, FlashmapText;
    archive, loaded := None, None;
    var writer := new Zipper.PackageWriter(xml, files);
    var ok := writer.Write(ops, images);
    if !ok {
      return;
    }
    archive := Some(writer.members);
    var reader := new FlashmapLoad.FlashmapReader(xml, Archive(writer.members), NoImages());
    var list := new OpList();
    ok := reader.LoadFlashmap(list, Text(FLASHMAP_NAME), None, None);
    ghost var meant := LoadPackage(xml, archive.value);
    if ok {
      loaded := Some((reader.images, list.ops));
      assert [] + meant.value.1 == meant.value.1;
    }
    if Installer(xml, files, ops, images, writer.members) {
      PackageRoundTrip(xml, files, ops, images, writer.members, storageSize);
    }
  }
}

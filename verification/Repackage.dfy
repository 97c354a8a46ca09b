/**
 * `create-zip` and then flashing the package: the same writes, erases and patches reach
 * every storage, and the same programmer images are loaded.
 */
module Repackage {
  import opened Bytes
  import opened Options
  import opened Ops
  import opened Images
  import opened ProgramLoad
  import opened Meaning
  import opened ZipperSpec
  import opened PackagedMembers
  import opened PackagedMeaning
  import opened PackagedFlashmap
  import FlashmapLoad
  import JsonSpec

  // ----- The members of the finished package

  /** The images that were added, each under its name. */
  ghost predicate ImagesStored(members: map<bytes, bytes>, images: seq<Option<Image>>, entries: seq<Option<bytes>>) {
    forall i :: 0 <= i < |entries| && i < |images| ==> ImageStored(members, images[i], entries[i])
  }

  predicate ImageStored(members: map<bytes, bytes>, image: Option<Image>, entry: Option<bytes>) {
    && (entry.Some? <==> image.Some?)
    && (image.Some? && entry.Some? ==> entry.value in members && members[entry.value] == image.value.content)
  }

  lemma NewMember(k: Package, name: bytes, data: bytes)
    requires NamesAgree(k) && name !in k.names
    ensures NamesAgree(k.Add(name, data)) && Extends(k.members, k.Add(name, data).members)
  {
  }

  lemma StillStored(a: map<bytes, bytes>, b: map<bytes, bytes>, images: seq<Option<Image>>, entries: seq<Option<bytes>>)
    requires Extends(a, b) && ImagesStored(a, images, entries)
    ensures ImagesStored(b, images, entries)
  {
    forall i | 0 <= i < |entries| && i < |images| ensures ImageStored(b, images[i], entries[i]) {
      assert ImageStored(a, images[i], entries[i]);
    }
  }

  lemma StoredLast(k: Package, k': Package, image: Option<Image>, entry: Option<bytes>)
    requires image.Some? <==> entry.Some?
    requires image.Some? ==> k' == k.Add(entry.value, image.value.content)
    ensures ImageStored(k'.members, image, entry)
  {
  }

  lemma {:induction false} ImagesAdded(k: Package, images: seq<Option<Image>>, n: nat)
    requires NamesAgree(k) && n <= |images| && AddImages(k, images, n).Some?
    ensures var (k', entries) := AddImages(k, images, n).value;
            NamesAgree(k') && Extends(k.members, k'.members) && ImagesStored(k'.members, images, entries)
  {
    hide NamesAgree, ImageName, ImageStored;
    if n > 0 {
      ImagesAdded(k, images, n - 1);
      var (k1, before) := AddImages(k, images, n - 1).value;
      var (k2, entries) := AddImages(k, images, n).value;
      if images[n - 1].Some? {
        var name := ImageName(k1, images[n - 1].value, n - 1).value;
        NameIsNew(k1, images[n - 1].value, n - 1);
        NewMember(k1, name, images[n - 1].value.content);
      }
      StillStored(k1.members, k2.members, images, before);
      forall i | 0 <= i < |entries| ensures ImageStored(k2.members, images[i], entries[i]) {
        if i < n - 1 { assert ImageStored(k2.members, images[i], before[i]); }
        else { StoredLast(k1, k2, images[n - 1], entries[n - 1]); }
      }
    }
  }

  lemma NameIsNew(k: Package, image: Image, slot: nat)
    requires ImageName(k, image, slot).Some?
    ensures ImageName(k, image, slot).value !in k.names
  {
  }

  /** The two documents of a storage. */
  predicate HasDocuments(xml: Xml, members: map<bytes, bytes>, c: StorageContext) {
    && c.storage != Unknown
    && ProgramXml(c.storage) in members && members[ProgramXml(c.storage)] == xml.write(ProgramDocument(c))
    && PatchXml(c.storage) in members && members[PatchXml(c.storage)] == xml.write(PatchDocument(c))
  }

  lemma DocumentsAdded(xml: Xml, k: Package, c: StorageContext)
    requires NamesAgree(k) && c.storage != Unknown && AddDocuments(xml, k, c).Some?
    ensures var k' := AddDocuments(xml, k, c).value;
            NamesAgree(k') && Extends(k.members, k'.members) && HasDocuments(xml, k'.members, c)
  {
    hide NamesAgree, Memory, Text;
    var a, b := ProgramXml(c.storage), PatchXml(c.storage);
    assert a != b by { XmlNamesDiffer(c.storage); }
    NewMember(k, a, xml.write(ProgramDocument(c)));
    NewMember(k.Add(a, xml.write(ProgramDocument(c))), b, xml.write(PatchDocument(c)));
  }

  lemma XmlNamesDiffer(s: StorageType)
    requires s != Unknown
    ensures ProgramXml(s) != PatchXml(s)
  {
    hide Memory;
    assert |ProgramXml(s)| == |Memory(s)| + 15 && |PatchXml(s)| == |Memory(s)| + 10;
  }

  lemma {:induction false} AllDocumentsAdded(xml: Xml, k: Package, n: nat)
    requires NamesAgree(k) && n <= |k.storages| && forall i :: 0 <= i < |k.storages| ==>
              k.storages[i].storage != Unknown
    requires AddAllDocuments(xml, k, n).Some?
    ensures var k' := AddAllDocuments(xml, k, n).value;
            && NamesAgree(k') && Extends(k.members, k'.members)
            && forall i :: 0 <= i < n ==> HasDocuments(xml, k'.members, k.storages[i])
  {
    hide NamesAgree, HasDocuments, AddDocuments;
    if n > 0 {
      AllDocumentsAdded(xml, k, n - 1);
      var k1, k2 := AddAllDocuments(xml, k, n - 1).value, AddAllDocuments(xml, k, n).value;
      DocumentsAdded(xml, k1, k.storages[n - 1]);
      forall i | 0 <= i < n ensures HasDocuments(xml, k2.members, k.storages[i]) {
        if i < n - 1
            { assert HasDocuments(xml, k1.members, k.storages[i]); StillHas(xml, k1.members, k2.members,
                  k.storages[i]); }
      }
    }
  }

  lemma StillHas(xml: Xml, a: map<bytes, bytes>, b: map<bytes, bytes>, c: StorageContext)
    requires Extends(a, b) && HasDocuments(xml, a, c)
    ensures HasDocuments(xml, b, c)
  {
  }

  lemma StorageFileNames(s: StorageType)
    requires s != Unknown
    ensures ProgramXml(s) != Text(FLASHMAP_NAME) && PatchXml(s) != Text(FLASHMAP_NAME)
    ensures !IsStorageName(Text(FLASHMAP_NAME))
  {
    MemoryStart(s);
    assert Text(FLASHMAP_NAME)[0] == 102;
    assert ProgramXml(s)[0] == Memory(s)[0] && PatchXml(s)[0] == Memory(s)[0];
  }

  lemma OtherMember(xml: Xml, members: map<bytes, bytes>, c: StorageContext, text: bytes)
    requires HasDocuments(xml, members, c)
    ensures HasDocuments(xml, members[Text(FLASHMAP_NAME) := text], c)
  {
    hide Text, Memory;
    StorageFileNames(c.storage);
  }

  lemma SoundMeans(files: map<bytes, bytes>, k: Package)
    requires Sound(files, k)
    ensures NamesAgree(k) && forall n :: n in k.members ==> n in k.names && IsStorageName(n)
  {
    hide IsStorageName;
  }

  /** The flashmap member takes nothing away but a programmer of its name. */
  lemma FinishedMembers(xml: Xml, files: map<bytes, bytes>, ops: seq<Op>, images: seq<Option<Image>>,
                        archive: map<bytes, bytes>)
    requires WritePackage(xml, files, ops, images) == Some(archive)
    ensures var (k, entries) := PackAll(xml, files, ops, images).value;
            && PackOps(files, ops).Some? && k.storages == PackOps(files, ops).value.storages && |k.storages| > 0
            && Extends(PackOps(files, ops).value.members, archive)
            && (forall i :: 0 <= i < |k.storages| ==> HasDocuments(xml, archive, k.storages[i]))
            && |entries| == |images| && AnyImage(entries) && ImagesStored(k.members, images, entries)
            && archive == k.members[Text(FLASHMAP_NAME) := FlashmapText(entries, k.storages)]
  {
    hide PackOps, AddImages, AddAllDocuments, HasDocuments, AnyImage, FlashmapText, Text, NamesAgree, ImageStored,
        Sound;
    var k0 := PackOps(files, ops).value;
    OpsKeep(files, ops);
    SoundMeans(files, k0);
    ImagesAdded(k0, images, |images|);
    var (k1, entries) := AddImages(k0, images, |images|).value;
    AllDocumentsAdded(xml, k1, |k1.storages|);
    var k := AddAllDocuments(xml, k1, |k1.storages|).value;
    StillStored(k1.members, k.members, images, entries);
    forall i | 0 <= i < |k.storages| ensures HasDocuments(xml, archive, k.storages[i]) {
      assert HasDocuments(xml, k.members, k1.storages[i]);
      OtherMember(xml, k.members, k.storages[i], FlashmapText(entries, k.storages));
    }
    forall n | n in k0.members ensures n in archive && archive[n] == k0.members[n] {
      assert n in k0.names && IsStorageName(n);
      StorageFileNames(Emmc);
    }
  }

  // ----- The storages of a package are different ones

  predicate Distinct(storages: seq<StorageContext>) {
    forall i, j :: 0 <= i < j < |storages| ==> storages[i].storage != storages[j].storage
  }

  lemma OpDistinct(files: map<bytes, bytes>, k: Package, op: Op)
    requires k.Valid() && Distinct(k.storages) && PackOp(files, k, op).Some?
    ensures Distinct(PackOp(files, k, op).value.storages)
  {
    hide Register, ProgramTag, EraseTag, PatchTag, Text;
    var k' := PackOp(files, k, op).value;
    if op.Configure? {
      if FindStorage(k.storages, op.storage).None? {
        assert k'.storages == k.storages + [StorageContext(op.storage, [], [])];
      }
    } else {
      assert |k'.storages| == |k.storages| && forall i :: 0 <= i < |k.storages| ==>
          k'.storages[i].storage == k.storages[i].storage;
    }
  }

  lemma {:induction false} OpsDistinct(files: map<bytes, bytes>, ops: seq<Op>)
    requires PackOps(files, ops).Some?
    ensures Distinct(PackOps(files, ops).value.storages)
  {
    hide PackOp;
    if |ops| > 0 {
      OpsDistinct(files, ops[..|ops| - 1]);
      OpDistinct(files, PackOps(files, ops[..|ops| - 1]).value, ops[|ops| - 1]);
    }
  }

  // ----- The trace of the loaded operations

  /** Operations of one storage, behind its configuration. */
  lemma {:induction false} SegmentTrace(src: Sources, storageSize: nat, s: StorageType, before: seq<Op>, c: StorageType,
                                        xs: seq<Op>)
    requires NoConfigure(xs)
    ensures Current(before + ([Configure(c)] + xs)) == Some(c)
    ensures Trace(src, storageSize, s, All, before + ([Configure(c)] + xs))
         == if c == s then Joined(Trace(src, storageSize, s, All, before), Flat(src, storageSize, xs))
            else Trace(src, storageSize, s, All, before)
  {
    hide Actions;
    var ops := before + ([Configure(c)] + xs);
    if |xs| == 0 {
      assert ops[..|ops| - 1] == before;
      ConfigureActs(src, storageSize, c);
      AddNothing(Trace(src, storageSize, s, All, before));
    } else {
      var init := xs[..|xs| - 1];
      assert ops[..|ops| - 1] == before + ([Configure(c)] + init);
      SegmentTrace(src, storageSize, s, before, c, init);
      var t, f, a := Trace(src, storageSize, s, All, before), Flat(src, storageSize, init),
          Actions(src, storageSize, xs[|xs| - 1]);
      if c == s { JoinedOnce(t, f, a); } else { AddNothing(t); }
    }
  }

  lemma ConfigureActs(src: Sources, storageSize: nat, c: StorageType)
    ensures Actions(src, storageSize, Configure(c)) == Some([])
  {
  }

  lemma AddNothing(t: Option<seq<Action>>)
    ensures Joined(t, Some([])) == t
  {
    if t.Some? { assert t.value + [] == t.value; }
  }

  lemma JoinedOnce(a: Option<seq<Action>>, b: Option<seq<Action>>, c: Option<seq<Action>>)
    ensures Joined(Joined(a, b), c) == Joined(a, Joined(b, c))
  {
    if a.Some? && b.Some? && c.Some? { assert a.value + b.value + c.value == a.value + (b.value + c.value); }
  }

  /** What the documents of storage `s` mean, read in order; nothing for a storage without any. */
  function Documented(src: Sources, storageSize: nat, s: StorageType, c: StorageContext): Option<seq<Action>> {
    var programs, patches := LoadTags(Archive(src.archive), c.programs, s == Nand, false), LoadPatches(c.patches);
    if programs.None? || patches.None? then None
    else Joined(Flat(src, storageSize, programs.value), Flat(src, storageSize, patches.value))
  }

  predicate Loads(src: Sources, c: StorageContext) {
    var programs, patches := LoadTags(Archive(src.archive), c.programs, c.storage == Nand, false),
        LoadPatches(c.patches);
    programs.Some? && patches.Some? && NoConfigure(programs.value) && NoConfigure(patches.value)
  }

  lemma StorageTrace(src: Sources, storageSize: nat, s: StorageType, before: seq<Op>, c: StorageContext)
    requires Loads(src, c)
    ensures StorageOps(Archive(src.archive), c).Some?
    ensures Trace(src, storageSize, s, All, before + StorageOps(Archive(src.archive), c).value)
         == if c.storage == s then Joined(Trace(src, storageSize, s, All, before), Documented(src, storageSize, s, c))
            else Trace(src, storageSize, s, All, before)
  {
    hide LoadTags, LoadPatches, Trace, Flat;
    var programs := LoadTags(Archive(src.archive), c.programs, c.storage == Nand, false).value;
    var patches := LoadPatches(c.patches).value;
    assert [Configure(c.storage)] + programs + patches == [Configure(c.storage)] + (programs + patches);
    SegmentTrace(src, storageSize, s, before, c.storage, programs + patches);
    FlatJoins(src, storageSize, programs, patches);
  }

  lemma {:induction false} StoragesTrace(src: Sources, storageSize: nat, s: StorageType, storages: seq<StorageContext>)
    requires Distinct(storages) && forall i :: 0 <= i < |storages| ==> Loads(src, storages[i])
    ensures AllStorageOps(Archive(src.archive), storages).Some?
    ensures Trace(src, storageSize, s, All, AllStorageOps(Archive(src.archive), storages).value)
         == if FindStorage(storages, s).None? then Some([])
            else Documented(src, storageSize, s, storages[FindStorage(storages, s).value])
  {
    hide Loads, Documented, StorageOps;
    if |storages| > 0 {
      var init, c := storages[..|storages| - 1], storages[|storages| - 1];
      StoragesTrace(src, storageSize, s, init);
      StorageTrace(src, storageSize, s, AllStorageOps(Archive(src.archive), init).value, c);
      NothingBefore(Documented(src, storageSize, s, c));
    }
  }

  lemma NothingBefore(t: Option<seq<Action>>)
    ensures Joined(Some([]), t) == t
  {
    if t.Some? { assert [] + t.value == t.value; }
  }

  // ----- Reading the package

  /** XML documents that survive the library, within the size it takes. */
  predicate Survives(xml: Xml, doc: Document) {
    xml.read(xml.write(doc)) == Some(doc) && |xml.write(doc)| <= JsonSpec.INT_MAX
  }

  predicate DocumentsSurvive(xml: Xml, storages: seq<StorageContext>) {
    forall i :: 0 <= i < |storages| ==>
        Survives(xml, ProgramDocument(storages[i])) && Survives(xml, PatchDocument(storages[i]))
  }

  /** Every image in a slot other than 0 and not empty, unless the flashmap took its place. */
  predicate ImagesReadable(images: seq<Option<Image>>, entries: seq<Option<bytes>>)
    requires |entries| == |images|
  {
    forall i :: 0 <= i < |images| ==> ImageReadable(images[i], entries[i], i)
  }

  predicate ImageReadable(image: Option<Image>, entry: Option<bytes>, i: nat) {
    image.Some? ==> i > 0 && (image.value.content != [] || entry == Some(Text(FLASHMAP_NAME)))
  }

  /** The image that is loaded for a slot. */
  function LoadedImage(image: Option<Image>, entry: Option<bytes>, flashmap: bytes): Option<Image> {
    if image.None? || entry.None? then None
    else Some(Image(entry, if entry.value == Text(FLASHMAP_NAME) then flashmap else image.value.content))
  }

  lemma ImagesLoad(place: Place, members: map<bytes, bytes>, images: seq<Option<Image>>, entries: seq<Option<bytes>>,
                   text: bytes)
    requires |images| == |entries| == IMAGE_SLOTS && ImagesStored(members, images, entries) && text != []
    requires place.files == members[Text(FLASHMAP_NAME) := text]
    ensures Loadable(place, entries) <==> ImagesReadable(images, entries)
    ensures Loadable(place, entries) ==>
              forall i :: 0 <= i < IMAGE_SLOTS ==>
                  Overlay(place, NoImages(), entries)[i] == LoadedImage(images[i], entries[i], text)
  {
    hide Text;
    forall i | 0 <= i < IMAGE_SLOTS
      ensures EntryLoadable(place, entries, i) <==> ImageReadable(images[i], entries[i], i)
      ensures images[i].Some? && EntryLoadable(place, entries, i) ==>
                FlashmapLoad.LoadImage(place, entries[i].value) == LoadedImage(images[i], entries[i], text)
    {
      assert ImageStored(members, images[i], entries[i]);
    }
    if Loadable(place, entries) {
      forall i | 0 <= i < IMAGE_SLOTS
        ensures Overlay(place, NoImages(), entries)[i] == LoadedImage(images[i], entries[i], text)
      {
        assert ImageStored(members, images[i], entries[i]) && EntryLoadable(place, entries, i);
      }
      forall i | 0 <= i < IMAGE_SLOTS
          ensures ImageReadable(images[i], entries[i], i) { assert EntryLoadable(place, entries, i); }
    }
    if ImagesReadable(images, entries) {
      forall i | 0 <= i < |entries|
          ensures EntryLoadable(place, entries, i) { assert ImageReadable(images[i], entries[i], i); }
    }
  }

  ghost predicate AllReadable(ops: seq<Op>) { forall s :: ReadableIn(s, ops) }

  ghost predicate AllFaithful(ops: seq<Op>) { forall s :: FaithfulIn(s, ops) }

  /** Every operation means the same in a package, with these files. */
  ghost predicate AllKept(src: Sources, storageSize: nat, ops: seq<Op>) {
    forall s :: KeptIn(src, storageSize, s, All, ops)
  }

  /** A list is kept whatever the files hold exactly when its operations are faithful. */
  lemma AllFaithfulIff(storageSize: nat, ops: seq<Op>)
    requires 0 < storageSize
    ensures (forall src :: AllKept(src, storageSize, ops)) <==> AllFaithful(ops)
  {
    hide KeptIn, FaithfulIn;
    if AllFaithful(ops) {
      forall src
        ensures AllKept(src, storageSize, ops)
      {
        forall s ensures KeptIn(src, storageSize, s, All, ops) {
          assert FaithfulIn(s, ops);
          FaithfulIsKept(src, storageSize, s, ops);
        }
      }
    }
    if forall src :: AllKept(src, storageSize, ops) {
      var files := OneByteFiles(ops);
      var src := Sources(files, map[]);
      assert AllKept(src, storageSize, ops);
      forall s ensures FaithfulIn(s, ops) { KeptIsFaithful(src, storageSize, s, ops); }
    }
  }

  lemma {:induction false} FindSelf(storages: seq<StorageContext>, i: nat)
    requires Distinct(storages) && i < |storages|
    ensures FindStorage(storages, storages[i].storage) == Some(i)
  {
    var j := FindStorage(storages, storages[i].storage).value;
  }

  /** A storage's documents load exactly when its operations are readable. */
  lemma ContextLoads(src: Sources, storageSize: nat, ops: seq<Op>, i: nat)
    requires PackOps(src.files, ops).Some? && Proper(src.files, ops)
    requires Extends(PackOps(src.files, ops).value.members, src.archive)
    requires i < |PackOps(src.files, ops).value.storages|
    ensures var c := PackOps(src.files, ops).value.storages[i];
            (StorageOps(Archive(src.archive), c).Some? <==> ReadableIn(c.storage, ops))
            && (ReadableIn(c.storage, ops) ==> Loads(src, c))
  {
    hide PackOps, ReadableIn, Proper, LoadTags, LoadPatches, Flat, Trace, NoConfigure;
    var storages := PackOps(src.files, ops).value.storages;
    var c := storages[i];
    OpsDistinct(src.files, ops);
    FindSelf(storages, i);
    AllRead(src, storageSize, c.storage, ops);
  }

  lemma {:induction false} SomeFails(place: Place, storages: seq<StorageContext>, i: nat)
    requires i < |storages| && StorageOps(place, storages[i]).None?
    ensures AllStorageOps(place, storages).None?
  {
    hide StorageOps;
    if i < |storages| - 1 { SomeFails(place, storages[..|storages| - 1], i); }
  }

  /** All the storages load exactly when every operation is readable. */
  lemma StoragesLoad(src: Sources, storageSize: nat, ops: seq<Op>)
    requires PackOps(src.files, ops).Some? && Proper(src.files, ops)
    requires Extends(PackOps(src.files, ops).value.members, src.archive)
    ensures AllStorageOps(Archive(src.archive), PackOps(src.files, ops).value.storages).Some? <==> AllReadable(ops)
    ensures AllReadable(ops) ==>
              forall i :: 0 <= i < |PackOps(src.files, ops).value.storages| ==>
                  Loads(src, PackOps(src.files, ops).value.storages[i])
  {
    hide PackOps, ReadableIn, Proper, StorageOps, Loads, Extends;
    var k := PackOps(src.files, ops).value;
    forall i | 0 <= i < |k.storages|
      ensures StorageOps(Archive(src.archive), k.storages[i]).Some? <==> ReadableIn(k.storages[i].storage, ops)
      ensures ReadableIn(k.storages[i].storage, ops) ==> Loads(src, k.storages[i])
    {
      ContextLoads(src, storageSize, ops, i);
    }
    if AllReadable(ops) {
      OpsDistinct(src.files, ops);
      StoragesTrace(src, storageSize, Unknown, k.storages);
    } else {
      var s :| !ReadableIn(s, ops);
      AllRead(src, storageSize, s, ops);
      if FindStorage(k.storages, s).None? {
        Undocumented(src, storageSize, s, ops, k);
      } else {
        SomeFails(Archive(src.archive), k.storages, FindStorage(k.storages, s).value);
      }
    }
  }

  lemma Undocumented(src: Sources, storageSize: nat, s: StorageType, ops: seq<Op>, k: Package)
    requires ReadsBack(src, storageSize, s, ops, ContextOf(k, s)) && FindStorage(k.storages, s).None?
    ensures ReadableIn(s, ops)
  {
    hide ReadableIn, Flat, Trace;
    assert LoadTags(Archive(src.archive), [], s == Nand, false) == Some([]);
  }

  /** What storage `s` receives from the loaded operations: first what was stored and erased, then the patches. */
  lemma LoadedTrace(src: Sources, storageSize: nat, s: StorageType, ops: seq<Op>)
    requires PackOps(src.files, ops).Some? && Proper(src.files, ops) && AllReadable(ops)
    requires Extends(PackOps(src.files, ops).value.members, src.archive)
    ensures AllStorageOps(Archive(src.archive), PackOps(src.files, ops).value.storages).Some?
    ensures var loaded := AllStorageOps(Archive(src.archive), PackOps(src.files, ops).value.storages).value;
            var same := Trace(src, storageSize, s, All, loaded)
                        == Joined(Trace(src, storageSize, s, Stores, ops), Trace(src, storageSize, s, Edits, ops));
            && (FaithfulIn(s, ops) ==> same)
            && (0 < storageSize ==> (same <==> KeptIn(src, storageSize, s, All, ops)))
  {
    hide PackOps, ReadableIn, FaithfulIn, Proper, StorageOps, Loads, Extends, Trace, LoadTags, LoadPatches, Flat,
        KeptIn,
         Matched;
    var k := PackOps(src.files, ops).value;
    StoragesLoad(src, storageSize, ops);
    OpsDistinct(src.files, ops);
    StoragesTrace(src, storageSize, s, k.storages);
    AllRead(src, storageSize, s, ops);
    assert ReadableIn(s, ops);
    if FindStorage(k.storages, s).None? {
      EmptyDocuments(src, storageSize, s);
    }
    if 0 < storageSize {
      KeptParts(src, storageSize, s, ops);
      var c := ContextOf(k, s);
      var programs, patches := LoadTags(Archive(src.archive), c.programs, s == Nand, false), LoadPatches(c.patches);
      MatchedJoins(Flat(src, storageSize, programs.value), Trace(src, storageSize, s, Stores, ops),
                   Flat(src, storageSize, patches.value), Trace(src, storageSize, s, Edits, ops),
                   KeptIn(src, storageSize, s, Stores, ops), KeptIn(src, storageSize, s, Edits, ops));
      MatchedTells(Joined(Flat(src, storageSize, programs.value), Flat(src, storageSize, patches.value)),
                   Joined(Trace(src, storageSize, s, Stores, ops), Trace(src, storageSize, s, Edits, ops)),
                   KeptIn(src, storageSize, s, All, ops));
    }
  }

  lemma MatchedTells(a: Option<seq<Action>>, b: Option<seq<Action>>, kept: bool)
    requires Matched(a, b, kept)
    ensures a == b <==> kept
  {
  }

  lemma EmptyDocuments(src: Sources, storageSize: nat, s: StorageType)
    ensures LoadTags(Archive(src.archive), [], s == Nand, false) == Some([]) && LoadPatches([]) == Some([])
    ensures Flat(src, storageSize, []) == Some([]) && Joined(Some([]), Some([])) == Some([])
  {
    NothingBefore(Some([]));
  }
}

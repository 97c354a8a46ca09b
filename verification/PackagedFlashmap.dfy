/** The flashmap of a package, read back: the programmer map and the storages that were written. */
module PackagedFlashmap {
  import opened Bytes
  import opened Options
  import opened Numerals
  import opened JsonSpec
  import opened Flashmap
  import opened FlashmapWriter
  import opened FlashmapLoad
  import opened Ops
  import opened Images
  import opened ProgramLoad
  import opened ZipperSpec
  import Zipper

  // ----- Looking up fields

  lemma {:induction false} WholeCString(s: bytes)
    requires NoNul(s)
    ensures CString(s) == s
  {
    if |s| > 0 { WholeCString(s[1..]); }
  }

  lemma PlainKey(key: string)
    requires IsPlain(key)
    ensures NoNul(Text(key)) && CString(Text(key)) == Text(key)
  {
    WholeCString(Text(key));
  }

  lemma {:induction false} MemberAt(members: seq<DMember>, i: nat)
    requires i < |members|
    ensures DocMembers(members)[i] == Member(members[i].key, DocValue(members[i].value))
  {
    hide DocValue;
    if i > 0 { MemberAt(members[1..], i - 1); }
  }

  lemma ObjectValue(members: seq<DMember>)
    ensures DocValue(DObject(members)) == Object(DocMembers(members))
  {
  }

  /** A field after others with names of other lengths. */
  lemma FieldFound(members: seq<DMember>, i: nat, key: string)
    requires i < |members| && IsPlain(key) && members[i].key == Text(key)
    requires forall j :: 0 <= j < i ==> |members[j].key| != |key| && NoNul(members[j].key)
    ensures Child(Some(DocValue(DObject(members))), key) == Some(DocValue(members[i].value))
  {
    hide Text, DocMembers;
    ObjectValue(members);
    var ms := DocMembers(members);
    PlainKey(key);
    MemberAt(members, i);
    assert HasKey(ms[i], key);
    forall j | 0 <= j < i ensures !HasKey(ms[j], key) {
      MemberAt(members, j);
      WholeCString(members[j].key);
    }
  }

  lemma {:induction false} ItemAt(items: seq<Doc>, i: nat)
    requires i < |items|
    ensures DocValues(items)[i] == DocValue(items[i])
  {
    hide DocValue;
    if i > 0 { ItemAt(items[1..], i - 1); }
  }

  lemma OneItem(d: Doc)
    ensures DocValue(DArray([d])) == Array([DocValue(d)])
  {
    ItemAt([d], 0);
    assert DocValues([d]) == [DocValue(d)];
  }

  lemma NamedValue(s: string)
    requires IsPlain(s)
    ensures DocValue(Named(s)) == String(Text(s)) && CString(Text(s)) == Text(s)
  {
    PlainKey(s);
  }

  // ----- The levels of the document

  lemma ReadVersion(entries: seq<Option<bytes>>, storages: seq<StorageFiles>)
    ensures StringAt(Some(DocValue(FlashmapDoc(entries, storages))), "version") == Some(Text(VERSION))
    ensures Child(Some(DocValue(FlashmapDoc(entries, storages))), "products")
         == Some(Array([DocValue(ProductDoc(entries, storages))]))
  {
    hide ProductDoc, DocValue, Child;
    var members := [Field("version", Named(VERSION)), Field("products", DArray([ProductDoc(entries, storages)]))];
    PlainKey("version");
    FieldFound(members, 0, "version");
    FieldFound(members, 1, "products");
    NamedValue(VERSION);
    OneItem(ProductDoc(entries, storages));
  }

  lemma ReadProduct(entries: seq<Option<bytes>>, storages: seq<StorageFiles>)
    ensures Child(Some(DocValue(ProductDoc(entries, storages))), "layouts")
         == Some(Array([DocValue(LayoutDoc(entries, storages))]))
  {
    hide LayoutDoc, DocValue, Child;
    PlainKey("name");
    FieldFound([Field("name", Named("contents")), Field("layouts", DArray([LayoutDoc(entries, storages)]))], 1,
               "layouts");
    OneItem(LayoutDoc(entries, storages));
  }

  lemma ReadLayout(entries: seq<Option<bytes>>, storages: seq<StorageFiles>)
    ensures Child(Some(DocValue(LayoutDoc(entries, storages))), "programmer")
         == Some(DocValue(DObject(ProgrammerMembers(entries))))
    ensures Child(Some(DocValue(LayoutDoc(entries, storages))), "programmable")
         == Some(DocValue(DArray(StorageDocs(storages))))
  {
    hide ProgrammerMembers, StorageDocs, DocValue, Child;
    var members := [Field("name", Named("layout0")), Field("programmer", DObject(ProgrammerMembers(entries))),
                    Field("programmable", DArray(StorageDocs(storages)))];
    PlainKey("name");
    PlainKey("programmer");
    FieldFound(members, 1, "programmer");
    FieldFound(members, 2, "programmable");
  }

  lemma ReadStorage(s: StorageFiles)
    requires NoNul(s.memory)
    ensures StringAt(Some(DocValue(StorageDoc(s))), "memory") == Some(s.memory)
    ensures NumberAt(Some(DocValue(StorageDoc(s))), "slot") == Some(0.0)
    ensures Child(Some(DocValue(StorageDoc(s))), "files") == Some(Array([String(s.programXml), String(s.patchXml)]))
  {
    hide DocValue, Child;
    var files := [DString(s.programXml), DString(s.patchXml)];
    var members := [Field("memory", DString(s.memory)), Field("slot", DNat(0)), Field("files", DArray(files))];
    PlainKey("memory");
    PlainKey("slot");
    FieldFound(members, 0, "memory");
    FieldFound(members, 1, "slot");
    FieldFound(members, 2, "files");
    WholeCString(s.memory);
    Leaves(s);
    TwoItems(files[0], files[1]);
  }

  lemma Leaves(s: StorageFiles)
    ensures DocValue(DString(s.memory)) == String(s.memory) && DocValue(DNat(0)) == Number(0.0)
    ensures DocValue(DString(s.programXml)) == String(s.programXml)
            && DocValue(DString(s.patchXml)) == String(s.patchXml)
  {
  }

  lemma TwoItems(a: Doc, b: Doc)
    ensures DocValue(DArray([a, b])) == Array([DocValue(a), DocValue(b)])
  {
    ItemAt([a, b], 0);
    ItemAt([a, b], 1);
    assert DocValues([a, b]) == [DocValue(a), DocValue(b)];
  }

  // ----- The programmers

  lemma KeyIsId(i: nat)
    requires i < IMAGE_SLOTS
    ensures CString(Decimal(i)) == Decimal(i)
    ensures ImageId(Decimal(i)) == if i == 0 then None else Some(i)
  {
    hide Strtoul;
    StrtoulOfDecimal(i, [], 0);
    assert Decimal(i) + [] == Decimal(i);
    WholeCString(Decimal(i));
  }

  lemma {:induction false} MembersJoin(ms: seq<DMember>, m: DMember)
    ensures DocMembers(ms + [m]) == DocMembers(ms) + [Member(m.key, DocValue(m.value))]
  {
    hide DocValue;
    if |ms| > 0 {
      assert (ms + [m])[1..] == ms[1..] + [m];
      MembersJoin(ms[1..], m);
    }
  }

  /** Programmers that can be loaded: in a slot other than 0, their files there and not empty. */
  predicate Loadable(place: Place, entries: seq<Option<bytes>>) {
    forall i :: 0 <= i < |entries| ==> EntryLoadable(place, entries, i)
  }

  predicate EntryLoadable(place: Place, entries: seq<Option<bytes>>, i: nat)
    requires i < |entries|
  {
    entries[i].Some? ==> i > 0 && LoadImage(place, entries[i].value).Some?
  }

  /** The images of the entries, over those of a table. */
  function Overlay(place: Place, images: ImageTable, entries: seq<Option<bytes>>): (r: ImageTable)
    requires |images| == IMAGE_SLOTS
    ensures |r| == IMAGE_SLOTS
  {
    seq(IMAGE_SLOTS, i requires 0 <= i < IMAGE_SLOTS =>
      if i < |entries| && entries[i].Some? then LoadImage(place, entries[i].value) else images[i])
  }

  lemma NoEntriesRead(place: Place, images: ImageTable)
    requires |images| == IMAGE_SLOTS
    ensures DocMembers([]) == [] && Overlay(place, images, []) == images
  {
    hide LoadImage;
  }

  lemma OverlaySame(place: Place, images: ImageTable, entries: seq<Option<bytes>>)
    requires |images| == IMAGE_SLOTS && 0 < |entries| <= IMAGE_SLOTS && entries[|entries| - 1].None?
    ensures Overlay(place, images, entries) == Overlay(place, images, entries[..|entries| - 1])
  {
    hide LoadImage;
  }

  /** The programmer map reads back slot by slot. */
  lemma {:induction false} ProgrammersRead(place: Place, images: ImageTable, entries: seq<Option<bytes>>)
    requires |images| == IMAGE_SLOTS && |entries| <= IMAGE_SLOTS
    requires forall i :: 0 <= i < |entries| && entries[i].Some? ==> NoNul(entries[i].value)
    ensures AddProgrammers(place, images, DocMembers(ProgrammerMembers(entries)))
         == if Loadable(place, entries) then Some(Overlay(place, images, entries)) else None
  {
    hide LoadImage, AddProgrammer, Decimal, DocMembers, Overlay;
    if |entries| == 0 {
      NoEntriesRead(place, images);
    } else {
      var init, last := entries[..|entries| - 1], entries[|entries| - 1];
      ProgrammersRead(place, images, init);
      LoadableInit(place, entries);
      if last.None? {
        OverlaySame(place, images, entries);
      } else {
        ProgrammerRead(place, images, entries);
      }
    }
  }

  lemma LoadableInit(place: Place, entries: seq<Option<bytes>>)
    requires |entries| > 0
    ensures Loadable(place, entries)
        <==> Loadable(place, entries[..|entries| - 1]) && EntryLoadable(place, entries, |entries| - 1)
  {
    hide LoadImage;
    var init := entries[..|entries| - 1];
    forall i | 0 <= i < |init| ensures EntryLoadable(place, init, i) <==> EntryLoadable(place, entries, i) {}
    if Loadable(place, init) && EntryLoadable(place, entries, |entries| - 1) {
      forall i | 0 <= i < |entries| ensures EntryLoadable(place, entries, i) {
        if i < |init| { assert EntryLoadable(place, init, i); }
      }
    }
    if Loadable(place, entries) {
      forall i | 0 <= i < |init| ensures EntryLoadable(place, init, i) { assert EntryLoadable(place, entries, i); }
    }
  }

  lemma StringValue(s: bytes)
    ensures DocValue(DString(s)) == String(s)
  {
  }

  lemma ProgrammerRead(place: Place, images: ImageTable, entries: seq<Option<bytes>>)
    requires |images| == IMAGE_SLOTS && 0 < |entries| <= IMAGE_SLOTS
    requires entries[|entries| - 1].Some? && NoNul(entries[|entries| - 1].value)
    requires AddProgrammers(place, images, DocMembers(ProgrammerMembers(entries[..|entries| - 1])))
          == if Loadable(place, entries[..|entries| - 1]) then Some(Overlay(place, images, entries[..|entries| - 1]))
              else None
    ensures AddProgrammers(place, images, DocMembers(ProgrammerMembers(entries)))
         == if Loadable(place, entries[..|entries| - 1]) && EntryLoadable(place, entries, |entries| - 1)
            then Some(Overlay(place, images, entries)) else None
  {
    hide LoadImage, Decimal, DocMembers, Loadable, ImageId, Overlay, DocValue;
    var n := |entries| - 1;
    var init, name := entries[..n], entries[n].value;
    var m := DMember(Decimal(n), DString(name));
    MembersJoin(ProgrammerMembers(init), m);
    var before := DocMembers(ProgrammerMembers(init));
    assert (before + [Member(m.key, DocValue(m.value))])[..|before|] == before;
    KeyIsId(n);
    WholeCString(name);
    StringValue(name);
    if Loadable(place, init) && EntryLoadable(place, entries, n) {
      OverlayMore(place, images, entries);
    }
  }

  lemma OverlayMore(place: Place, images: ImageTable, entries: seq<Option<bytes>>)
    requires |images| == IMAGE_SLOTS && 0 < |entries| <= IMAGE_SLOTS && entries[|entries| - 1].Some?
    ensures Overlay(place, images,
                    entries[..|entries| - 1])[|entries| - 1 := LoadImage(place, entries[|entries| - 1].value)]
         == Overlay(place, images, entries)
  {
    hide LoadImage;
  }

  // ----- The storages

  /** What a storage's documents stand for. */
  function StorageOps(place: Place, c: StorageContext): Option<seq<Op>> {
    var programs, patches := LoadTags(place, c.programs, c.storage == Nand, false), LoadPatches(c.patches);
    if programs.None? || patches.None? then None else Some([Configure(c.storage)] + programs.value + patches.value)
  }

  function AllStorageOps(place: Place, storages: seq<StorageContext>): Option<seq<Op>> {
    if |storages| == 0 then Some([])
    else
      var before, last := AllStorageOps(place, storages[..|storages| - 1]), StorageOps(place, storages[|storages| - 1]);
      if before.None? || last.None? then None else Some(before.value + last.value)
  }

  /** A document that the XML library reads back from where it was stored. */
  predicate Stored(xml: Xml, place: Place, name: bytes, doc: Document) {
    name in place.files && |place.files[name]| <= INT_MAX && xml.read(place.files[name]) == Some(doc)
  }

  predicate StoragesStored(xml: Xml, place: Place, storages: seq<StorageContext>) {
    forall i :: 0 <= i < |storages| ==> StorageStored(xml, place, storages[i])
  }

  predicate StorageStored(xml: Xml, place: Place, c: StorageContext) {
    && c.storage != Unknown
    && Stored(xml, place, ProgramXml(c.storage), ProgramDocument(c))
    && Stored(xml, place, PatchXml(c.storage), PatchDocument(c))
  }

  lemma DecodesBack(s: StorageType)
    requires s != Unknown
    ensures DecodeStorageType(Memory(s)) == s
    ensures Memory(s) == Text("nand") <==> s == Nand
  {
    var t := Memory(s);
    assert |t| >= 3 && |Text("emmc")| == 4;
    assert Text("emmc")[0] == 101 && Text("nand")[0] == 110 && Text("nand")[1] == 97 && Text("ufs")[0] == 117;
    assert Text("nvme")[0] == 110 && Text("nvme")[1] == 118 && Text("spinor")[0] == 115;
  }

  lemma NamesAreWhole(s: StorageType)
    requires s != Unknown
    ensures NoNul(Memory(s)) && CString(ProgramXml(s)) == ProgramXml(s) && CString(PatchXml(s)) == PatchXml(s)
  {
    hide Memory, Text;
    Zipper.MemoryIsWord(s);
    WholeCString(ProgramXml(s));
    WholeCString(PatchXml(s));
  }

  function FilesOfOne(c: StorageContext): StorageFiles
    requires c.storage != Unknown
  {
    StorageFiles(Memory(c.storage), ProgramXml(c.storage), PatchXml(c.storage))
  }

  lemma StorageRead(xml: Xml, place: Place, c: StorageContext)
    requires StorageStored(xml, place, c)
    ensures LoadProgrammable(xml, place, DocValue(StorageDoc(FilesOfOne(c)))) == StorageOps(place, c)
  {
    hide DocValue, StorageDoc, Memory, ProgramXml, PatchXml, LoadTags, LoadPatches, StringAt, NumberAt, Child, Text;
    var s := c.storage;
    NamesAreWhole(s);
    ReadStorage(FilesOfOne(c));
    DecodesBack(s);
    FilesRead(xml, place, c);
    var programs, patches := LoadTags(place, c.programs, s == Nand, false), LoadPatches(c.patches);
    if programs.Some? && patches.Some? {
      assert [Configure(s)] + (programs.value + patches.value) == [Configure(s)] + programs.value + patches.value;
    }
  }

  function Both(a: Option<seq<Op>>, b: Option<seq<Op>>): Option<seq<Op>> {
    if a.None? || b.None? then None else Some(a.value + b.value)
  }

  lemma FilesRead(xml: Xml, place: Place, c: StorageContext)
    requires StorageStored(xml, place, c)
    requires CString(ProgramXml(c.storage)) == ProgramXml(c.storage)
             && CString(PatchXml(c.storage)) == PatchXml(c.storage)
    ensures LoadFiles(xml, place, [String(ProgramXml(c.storage)), String(PatchXml(c.storage))], c.storage == Nand)
         == Both(LoadTags(place, c.programs, c.storage == Nand, false), LoadPatches(c.patches))
  {
    hide Memory, ProgramXml, PatchXml, LoadTags, LoadPatches;
    var a, b := String(ProgramXml(c.storage)), String(PatchXml(c.storage));
    assert [a, b][..1] == [a] && [a][..0] == [];
    var isNand := c.storage == Nand;
    assert LoadXmlFile(xml, place, ProgramXml(c.storage), isNand) == LoadTags(place, c.programs, isNand, false);
    assert LoadXmlFile(xml, place, PatchXml(c.storage), isNand) == LoadPatches(c.patches);
    assert LoadFiles(xml, place, [a], isNand) == LoadTags(place, c.programs, isNand, false) by {
      assert LoadFiles(xml, place, [], isNand) == Some([]);
      if LoadTags(place, c.programs, isNand, false).Some? {
        assert [] + LoadTags(place, c.programs, isNand, false).value
            == LoadTags(place, c.programs, isNand, false).value;
      }
    }
  }

  lemma {:induction false} ValuesJoin(ds: seq<Doc>, d: Doc)
    ensures DocValues(ds + [d]) == DocValues(ds) + [DocValue(d)]
  {
    hide DocValue;
    if |ds| > 0 {
      assert (ds + [d])[1..] == ds[1..] + [d];
      ValuesJoin(ds[1..], d);
    }
  }

  /** The list of storages reads back storage by storage. */
  lemma {:induction false} StoragesRead(xml: Xml, place: Place, storages: seq<StorageContext>)
    requires StoragesStored(xml, place, storages)
    ensures forall i :: 0 <= i < |storages| ==> storages[i].storage != Unknown
    ensures LoadProgrammables(xml, place, DocValues(StorageDocs(FilesOf(storages)))) == AllStorageOps(place, storages)
  {
    hide LoadProgrammable, StorageOps, DocValue, DocValues, StorageDoc, Memory, ProgramXml, PatchXml;
    forall i | 0 <= i < |storages|
        ensures storages[i].storage != Unknown { assert StorageStored(xml, place, storages[i]); }
    if |storages| == 0 {
      assert StorageDocs(FilesOf(storages)) == [];
      NoDocs(0);
    } else {
      var init, c := storages[..|storages| - 1], storages[|storages| - 1];
      forall i | 0 <= i < |init| ensures StorageStored(xml, place, init[i])
          { assert StorageStored(xml, place, storages[i]); }
      StoragesRead(xml, place, init);
      assert StorageStored(xml, place, c);
      StorageRead(xml, place, c);
      assert StorageDocs(FilesOf(storages)) == StorageDocs(FilesOf(init)) + [StorageDoc(FilesOfOne(c))];
      ValuesJoin(StorageDocs(FilesOf(init)), StorageDoc(FilesOfOne(c)));
      var vs := DocValues(StorageDocs(FilesOf(init)));
      assert (vs + [DocValue(StorageDoc(FilesOfOne(c)))])[..|vs|] == vs;
    }
  }

  // ----- The whole flashmap

  lemma {:induction false} AllSelected(ops: seq<Op>)
    ensures Selected(ops, None) == ops
  {
    hide RunningType;
    if |ops| > 0 {
      AllSelected(ops[..|ops| - 1]);
      assert ops[..|ops| - 1] + [ops[|ops| - 1]] == ops;
    }
  }

  lemma {:induction false} StoragesConfigure(place: Place, storages: seq<StorageContext>)
    requires |storages| > 0 && AllStorageOps(place, storages).Some?
    ensures AllStorageOps(place, storages).value != []
  {
    hide LoadTags, LoadPatches;
  }

  lemma {:induction false} EntriesMakeMembers(entries: seq<Option<bytes>>)
    ensures ProgrammerMembers(entries) != [] <==> AnyImage(entries)
  {
    hide Decimal;
    if |entries| > 0 {
      EntriesMakeMembers(entries[..|entries| - 1]);
      assert entries[..|entries| - 1] + [entries[|entries| - 1]] == entries;
      Zipper.OneMoreEntry(entries[..|entries| - 1], entries[|entries| - 1]);
    } else {
      Zipper.NoEntries();
    }
  }

  /** Reading a flashmap that was written: it loads exactly when its images and its documents do. */
  lemma FlashmapMeans(xml: Xml, place: Place, entries: seq<Option<bytes>>, storages: seq<StorageContext>)
    requires |entries| == IMAGE_SLOTS && AnyImage(entries) && |storages| > 0
    requires forall i :: 0 <= i < |entries| && entries[i].Some? ==> NoNul(entries[i].value)
    requires StoragesStored(xml, place, storages)
    ensures forall i :: 0 <= i < |storages| ==> storages[i].storage != Unknown
    ensures Interpret(xml, place, NoImages(), DocValue(FlashmapDoc(entries, FilesOf(storages))), None, None)
         == if Loadable(place, entries) && AllStorageOps(place, storages).Some?
            then Some((Overlay(place, NoImages(), entries), AllStorageOps(place, storages).value)) else None
  {
    hide DocValue, FlashmapDoc, ProductDoc, LayoutDoc, Text, StringAt, Child, AllStorageOps, Overlay, Loadable,
        StorageDocs;
    hide LoadProgrammables, AddProgrammers, ProgrammerMembers, AnyImage, LegacyProgrammer, StoragesStored;
    StoragesRead(xml, place, storages);
    var files := FilesOf(storages);
    ReadVersion(entries, files);
    ReadProduct(entries, files);
    ReadLayout(entries, files);
    ProgrammersMeans(place, entries, DocValue(LayoutDoc(entries, files)));
    EnumerateMeans(xml, place, files, storages);
    if AllStorageOps(place, storages).Some? {
      AllSelected(AllStorageOps(place, storages).value);
      StoragesConfigure(place, storages);
    }
  }

  lemma ProgrammersMeans(place: Place, entries: seq<Option<bytes>>, layout: Value)
    requires |entries| == IMAGE_SLOTS && AnyImage(entries)
    requires forall i :: 0 <= i < |entries| && entries[i].Some? ==> NoNul(entries[i].value)
    requires Child(Some(layout), "programmer") == Some(DocValue(DObject(ProgrammerMembers(entries))))
    ensures ProgrammerMap(place, NoImages(), layout)
         == if Loadable(place, entries) then Some(Overlay(place, NoImages(), entries)) else None
  {
    hide Child, AddProgrammers, ProgrammerMembers, AnyImage, Overlay, Loadable, DocMembers;
    EntriesMakeMembers(entries);
    ProgrammersRead(place, NoImages(), entries);
    assert DocValue(DObject(ProgrammerMembers(entries))) == Object(DocMembers(ProgrammerMembers(entries)));
  }

  lemma EnumerateMeans(xml: Xml, place: Place, files: seq<StorageFiles>, storages: seq<StorageContext>)
    requires |files| > 0
    requires LoadProgrammables(xml, place, DocValues(StorageDocs(files))) == AllStorageOps(place, storages)
    ensures Enumerate(xml, place, DocValue(DArray(StorageDocs(files)))) == AllStorageOps(place, storages)
  {
    hide LoadProgrammables, AllStorageOps, DocValues;
    assert DocValue(DArray(StorageDocs(files))) == Array(DocValues(StorageDocs(files)));
  }

  // ----- The text

  lemma {:induction false} ProgrammersAreFlat(entries: seq<Option<bytes>>)
    ensures forall i :: 0 <= i < |ProgrammerMembers(entries)| ==> ProgrammerMembers(entries)[i].value.DString?
  {
    hide Decimal;
    if |entries| > 0 { ProgrammersAreFlat(entries[..|entries| - 1]); }
  }

  lemma {:induction false} StringsAreFlat(ms: seq<DMember>)
    requires forall i :: 0 <= i < |ms| ==> ms[i].value.DString?
    ensures MembersDepth(ms) == 0
  {
    if |ms| > 0 { StringsAreFlat(ms[1..]); }
  }

  lemma {:induction false} ItemsAtDepth(ds: seq<Doc>, n: nat)
    requires forall i :: 0 <= i < |ds| ==> DocDepth(ds[i]) <= n
    ensures ItemsDepth(ds) <= n
  {
    hide DocDepth;
    if |ds| > 0 { ItemsAtDepth(ds[1..], n); }
  }

  lemma StorageDepth(s: StorageFiles)
    ensures DocDepth(StorageDoc(s)) <= 2 && Representable(StorageDoc(s))
  {
    hide Text;
    var files := [DString(s.programXml), DString(s.patchXml)];
    ItemsAtDepth(files, 0);
    var members := [Field("memory", DString(s.memory)), Field("slot", DNat(0)), Field("files", DArray(files))];
    assert Representable(DString(s.programXml)) && Representable(DString(s.patchXml));
    assert Representable(DArray(files));
    MembersAtDepth(members, 1);
  }

  lemma {:induction false} MembersAtDepth(ms: seq<DMember>, n: nat)
    requires forall i :: 0 <= i < |ms| ==> DocDepth(ms[i].value) <= n
    ensures MembersDepth(ms) <= n
  {
    hide DocDepth;
    if |ms| > 0 { MembersAtDepth(ms[1..], n); }
  }

  lemma StorageDocAt(storages: seq<StorageFiles>, i: nat)
    requires i < |storages|
    ensures StorageDocs(storages)[i] == StorageDoc(storages[i])
  {
    hide StorageDoc;
  }

  lemma FlashmapDepth(entries: seq<Option<bytes>>, storages: seq<StorageFiles>)
    ensures DocDepth(FlashmapDoc(entries, storages)) <= 8 && Representable(FlashmapDoc(entries, storages))
  {
    hide Text, ProgrammerMembers, StorageDocs, StorageDoc;
    ProgrammersAreFlat(entries);
    StringsAreFlat(ProgrammerMembers(entries));
    forall i | 0 <= i < |StorageDocs(storages)|
      ensures DocDepth(StorageDocs(storages)[i]) <= 2 && Representable(StorageDocs(storages)[i])
    {
      StorageDocAt(storages, i);
      StorageDepth(storages[i]);
    }
    ItemsAtDepth(StorageDocs(storages), 2);
    LayoutDepth(entries, storages);
    ItemsAtDepth([LayoutDoc(entries, storages)], 4);
    ProductDepth(entries, storages);
    ItemsAtDepth([ProductDoc(entries, storages)], 6);
    MembersAtDepth([Field("version", Named(VERSION)), Field("products", DArray([ProductDoc(entries, storages)]))], 7);
  }

  lemma LayoutDepth(entries: seq<Option<bytes>>, storages: seq<StorageFiles>)
    requires MembersDepth(ProgrammerMembers(entries)) == 0 && ItemsDepth(StorageDocs(storages)) <= 2
    requires forall i :: 0 <= i < |StorageDocs(storages)| ==> Representable(StorageDocs(storages)[i])
    requires forall i :: 0 <= i < |ProgrammerMembers(entries)| ==> ProgrammerMembers(entries)[i].value.DString?
    ensures DocDepth(LayoutDoc(entries, storages)) <= 4 && Representable(LayoutDoc(entries, storages))
  {
    hide Text, ProgrammerMembers, StorageDocs;
    var members := [Field("name", Named("layout0")), Field("programmer", DObject(ProgrammerMembers(entries))),
                    Field("programmable", DArray(StorageDocs(storages)))];
    assert Representable(DObject(ProgrammerMembers(entries)));
    assert Representable(DArray(StorageDocs(storages)));
    assert Representable(Named("layout0"));
    MembersAtDepth(members, 3);
  }

  lemma ProductDepth(entries: seq<Option<bytes>>, storages: seq<StorageFiles>)
    requires DocDepth(LayoutDoc(entries, storages)) <= 4 && Representable(LayoutDoc(entries, storages))
    requires ItemsDepth([LayoutDoc(entries, storages)]) <= 4
    ensures DocDepth(ProductDoc(entries, storages)) <= 6 && Representable(ProductDoc(entries, storages))
  {
    hide Text, LayoutDoc;
    var members := [Field("name", Named("contents")), Field("layouts", DArray([LayoutDoc(entries, storages)]))];
    MembersAtDepth(members, 5);
  }

  /** The flashmap text parses to the document it was written from. */
  lemma FlashmapParses(entries: seq<Option<bytes>>, storages: seq<StorageContext>)
    requires forall i :: 0 <= i < |storages| ==> storages[i].storage != Unknown
    requires |FlashmapText(entries, storages)| <= INT_MAX
    ensures Parse(FlashmapText(entries, storages)) == Some(DocValue(FlashmapDoc(entries, FilesOf(storages))))
  {
    hide FlashmapDoc, Pretty, Parse, DocValue, DocDepth, Representable;
    FlashmapDepth(entries, FilesOf(storages));
    PrettyParses(FlashmapDoc(entries, FilesOf(storages)));
  }
}

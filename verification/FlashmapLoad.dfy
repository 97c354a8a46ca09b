/** Reading a flashmap: the programmers and the operations that an installer package stands for. */
module FlashmapLoad {
  import opened Bytes
  import opened Options
  import opened Numerals
  import opened JsonSpec
  import opened Ops
  import opened Images
  import opened ProgramLoad
  import JsonParser

  // ----- JSON values, a null pointer being None

  /** A buffer as a C string: up to its first NUL. */
  function CString(b: bytes): (r: bytes)
    ensures r <= b && 0 !in r && (|r| < |b| ==> b[|r|] == 0)
  {
    if |b| == 0 || b[0] == 0 then [] else [b[0]] + CString(b[1..])
  }

  predicate HasKey(m: Member, key: string) { CString(m.key) == Text(key) }

  /** The position of the first member with the key. */
  function FirstIndex(members: seq<Member>, key: string): (i: nat)
    ensures i <= |members| && (i < |members| ==> HasKey(members[i], key))
    ensures forall j :: 0 <= j < i ==> !HasKey(members[j], key)
  {
    if |members| == 0 || HasKey(members[0], key) then 0 else 1 + FirstIndex(members[1..], key)
  }

  /** `json_get_child` */
  function Child(v: Option<Value>, key: string): Option<Value> {
    if v.None? || !v.value.Object? then None
    else
      var i := FirstIndex(v.value.members, key);
      if i < |v.value.members| then Some(v.value.members[i].value) else None
  }

  method GetChild(v: Option<Value>, key: string) returns (r: Option<Value>)
    ensures r == Child(v, key)
  {
    hide HasKey;
    if v.None? || !v.value.Object? {
      return None;
    }
    var members := v.value.members;
    for i := 0 to |members|
      invariant forall j :: 0 <= j < i ==> !HasKey(members[j], key)
    {
      if HasKey(members[i], key) {
        return Some(members[i].value);
      }
    }
    return None;
  }

  /** `json_get_string` */
  function StringAt(v: Option<Value>, key: string): Option<bytes> {
    var c := Child(v, key);
    if c.Some? && c.value.String? then Some(CString(c.value.s)) else None
  }

  /** `json_get_number` */
  function NumberAt(v: Option<Value>, key: string): Option<real> {
    var c := Child(v, key);
    if c.Some? && c.value.Number? then Some(c.value.x) else None
  }

  /** `json_count_children` */
  function Count(v: Option<Value>): int { if v.None? || !v.value.Array? then -1 else |v.value.items| }

  // ----- Files

  /** `decode_storage_type` */
  function DecodeStorageType(name: bytes): StorageType {
    if name == Text("emmc") then Emmc
    else if name == Text("nand") then Nand
    else if name == Text("ufs") then Ufs
    else if name == Text("nvme") then Nvme
    else if name == Text("spinor") then Spinor
    else Unknown
  }

  /** `load_sahara_image`: a file that is there and not empty. */
  function LoadImage(place: Place, name: bytes): Option<Image> {
    if name !in place.files || |place.files[name]| == 0 then None else Some(Image(Some(name), place.files[name]))
  }

  /** `flashmap_load_xml`: what a file is, its root element tells. */
  function LoadXmlFile(xml: Xml, place: Place, name: bytes, isNand: bool): Option<seq<Op>> {
    if name !in place.files || |place.files[name]| > INT_MAX then None
    else
      match xml.read(place.files[name])
      case None => None
      case Some(doc) =>
        if doc.root == "patches" then LoadPatches(doc.tags)
        else if doc.root == "data" then LoadTags(place, doc.tags, isNand, false)
        else None
  }

  function LoadFiles(xml: Xml, place: Place, files: seq<Value>, isNand: bool): Option<seq<Op>> {
    if |files| == 0 then Some([])
    else
      var before, last := LoadFiles(xml, place, files[..|files| - 1], isNand), files[|files| - 1];
      if before.None? || !last.String? then None
      else
        match LoadXmlFile(xml, place, CString(last.s), isNand)
        case None => None
        case Some(ops) => Some(before.value + ops)
  }

  /** One storage: its configuration, and the operations of its files in order. */
  function LoadProgrammable(xml: Xml, place: Place, v: Value): Option<seq<Op>> {
    var memory, slot, files := StringAt(Some(v), "memory"), NumberAt(Some(v), "slot"), Child(Some(v), "files");
    if memory.None? || slot.None? || files.None? || !files.value.Array? then None
    else
      match LoadFiles(xml, place, files.value.items, memory.value == Text("nand"))
      case None => None
      case Some(ops) => Some([Configure(DecodeStorageType(memory.value))] + ops)
  }

  function LoadProgrammables(xml: Xml, place: Place, items: seq<Value>): Option<seq<Op>> {
    if |items| == 0 then Some([])
    else
      var before, last := LoadProgrammables(xml, place, items[..|items| - 1]),
          LoadProgrammable(xml, place, items[|items| - 1]);
      if before.None? || last.None? then None else Some(before.value + last.value)
  }

  /** `flashmap_enumerate_programmables` */
  function Enumerate(xml: Xml, place: Place, list: Value): Option<seq<Op>> {
    if !list.Array? || |list.items| == 0 then None else LoadProgrammables(xml, place, list.items)
  }

  // ----- Programmers

  /** The image id of a key: a whole number in any notation of C, from 1 to 127. */
  function ImageId(key: bytes): (r: Option<nat>)
    ensures r.Some? ==> 0 < r.value < IMAGE_SLOTS
  {
    var n := Strtoul(key, 0);
    if n.1 == 0 || n.1 != |key| || n.0 == 0 || n.0 >= IMAGE_SLOTS then None else Some(n.0)
  }

  function AddProgrammer(place: Place, images: ImageTable, m: Member): (r: Option<ImageTable>)
    requires |images| == IMAGE_SLOTS
    ensures r.Some? ==> |r.value| == IMAGE_SLOTS
  {
    var id := ImageId(CString(m.key));
    if id.None? || !m.value.String? then None
    else
      match LoadImage(place, CString(m.value.s))
      case None => None
      case Some(image) => Some(images[id.value := Some(image)])
  }

  function AddProgrammers(place: Place, images: ImageTable, members: seq<Member>): (r: Option<ImageTable>)
    requires |images| == IMAGE_SLOTS
    ensures r.Some? ==> |r.value| == IMAGE_SLOTS
  {
    if |members| == 0 then Some(images)
    else
      match AddProgrammers(place, images, members[..|members| - 1])
      case None => None
      case Some(t) => AddProgrammer(place, t, members[|members| - 1])
  }

  /** `flashmap_get_programmer_map` */
  function ProgrammerMap(place: Place, images: ImageTable, layout: Value): (r: Option<ImageTable>)
    requires |images| == IMAGE_SLOTS
    ensures r.Some? ==> |r.value| == IMAGE_SLOTS
  {
    var programmers := Child(Some(layout), "programmer");
    if programmers.None? || !programmers.value.Object? || |programmers.value.members| == 0 then None
    else AddProgrammers(place, images, programmers.value.members)
  }

  /** The image a single programmer is for. */
  const EHOSTDL := 13

  /** `flashmap_get_legacy_programmer` */
  function LegacyProgrammer(place: Place, images: ImageTable, layout: Value): (r: Option<ImageTable>)
    requires |images| == IMAGE_SLOTS
    ensures r.Some? ==> |r.value| == IMAGE_SLOTS
  {
    var programmers := Child(Some(layout), "programmer");
    if programmers.None? || !programmers.value.Array? || |programmers.value.items| != 1
       || !programmers.value.items[0].String? then None
    else
      match LoadImage(place, CString(programmers.value.items[0].s))
      case None => None
      case Some(image) => Some(images[EHOSTDL := Some(image)])
  }

  // ----- Storage filter

  /** The storage type that a position in the list belongs to: the last known one. */
  function RunningType(ops: seq<Op>): StorageType {
    if |ops| == 0 then Unknown
    else
      var op := ops[|ops| - 1];
      if op.Configure? && op.storage != Unknown then op.storage else RunningType(ops[..|ops| - 1])
  }

  /** The operations of the selected storage types; without a filter, all. */
  function Selected(ops: seq<Op>, filter: Option<set<StorageType>>): seq<Op> {
    if |ops| == 0 then []
    else
      var before := Selected(ops[..|ops| - 1], filter);
      if filter.None? || RunningType(ops) in filter.value then before + [ops[|ops| - 1]] else before
  }

  // ----- Loading

  function LayoutIndex(items: seq<Value>, selector: bytes): (i: nat)
    ensures i <= |items| && (i < |items| ==> StringAt(Some(items[i]), "name") == Some(selector))
    ensures forall j :: 0 <= j < i ==> StringAt(Some(items[j]), "name") != Some(selector)
  {
    if |items| == 0 || StringAt(Some(items[0]), "name") == Some(selector) then 0
        else 1 + LayoutIndex(items[1..], selector)
  }

  /** `flashmap_select_layout`: the first of that name, or the only one. */
  function SelectLayout(layouts: Option<Value>, selector: Option<bytes>): Option<Value> {
    if layouts.None? || !layouts.value.Array? || |layouts.value.items| == 0 then None
    else
      var items := layouts.value.items;
      if selector.None? then if |items| == 1 then Some(items[0]) else None
      else
        var i := LayoutIndex(items, selector.value);
        if i < |items| then Some(items[i]) else None
  }

  /** What a flashmap means: the images, and the operations in order. */
  function Interpret(xml: Xml, place: Place, images: ImageTable, json: Value, selector: Option<bytes>,
                     filter: Option<set<StorageType>>): (r: Option<(ImageTable, seq<Op>)>)
    requires |images| == IMAGE_SLOTS
    ensures r.Some? ==> |r.value.0| == IMAGE_SLOTS
  {
    var version, products := StringAt(Some(json), "version"), Child(Some(json), "products");
    if version != Some(Text("1.2.0-qdl")) && version != Some(Text("1.1.0")) then None
    else if Count(products) != 1 then None
    else
      match SelectLayout(Child(Some(products.value.items[0]), "layouts"), selector)
      case None => None
      case Some(layout) =>
        var table := if version == Some(Text("1.2.0-qdl")) then ProgrammerMap(place, images, layout)
                     else LegacyProgrammer(place, images, layout);
        var programmable := Child(Some(layout), "programmable");
        if table.None? || programmable.None? then None
        else
          match Enumerate(xml, place, programmable.value)
          case None => None
          case Some(ops) => if Selected(ops, filter) == [] then None else Some((table.value, Selected(ops, filter)))
  }

  /** `flashmap_load` on the flashmap called `name`. */
  function Load(xml: Xml, place: Place, images: ImageTable, name: bytes, selector: Option<bytes>,
                filter: Option<set<StorageType>>): (r: Option<(ImageTable, seq<Op>)>)
    requires |images| == IMAGE_SLOTS
    ensures r.Some? ==> |r.value.0| == IMAGE_SLOTS
  {
    if name !in place.files then None
    else
      match Parse(place.files[name])
      case None => None
      case Some(json) => Interpret(xml, place, images, json, selector, filter)
  }

  // ----- A list that failed stays failed

  lemma {:induction false} FilesFail(xml: Xml, place: Place, files: seq<Value>, isNand: bool, i: nat)
    requires i <= |files| && LoadFiles(xml, place, files[..i], isNand).None?
    ensures LoadFiles(xml, place, files, isNand).None?
    decreases |files| - i
  {
    hide LoadXmlFile;
    if i < |files| {
      assert files[..i + 1][..i] == files[..i];
      FilesFail(xml, place, files, isNand, i + 1);
    } else {
      assert files[..i] == files;
    }
  }

  lemma {:induction false} ProgrammablesFail(xml: Xml, place: Place, items: seq<Value>, i: nat)
    requires i <= |items| && LoadProgrammables(xml, place, items[..i]).None?
    ensures LoadProgrammables(xml, place, items).None?
    decreases |items| - i
  {
    hide LoadProgrammable;
    if i < |items| {
      assert items[..i + 1][..i] == items[..i];
      ProgrammablesFail(xml, place, items, i + 1);
    } else {
      assert items[..i] == items;
    }
  }

  lemma {:induction false} ProgrammersFail(place: Place, images: ImageTable, members: seq<Member>, i: nat)
    requires |images| == IMAGE_SLOTS && i <= |members| && AddProgrammers(place, images, members[..i]).None?
    ensures AddProgrammers(place, images, members).None?
    decreases |members| - i
  {
    hide AddProgrammer;
    if i < |members| {
      assert members[..i + 1][..i] == members[..i];
      ProgrammersFail(place, images, members, i + 1);
    } else {
      assert members[..i] == members;
    }
  }

  // ----- The loader

  class FlashmapReader {
    const xml: Xml
    const place: Place
    var images: ImageTable

    constructor (xml: Xml, place: Place, images: ImageTable)
      ensures this.xml == xml && this.place == place && this.images == images
    {
      this.xml, this.place, this.images := xml, place, images;
    }

    /** `load_sahara_image` into a slot. */
    method LoadSaharaImage(name: bytes, id: nat) returns (ok: bool)
      requires id < |images|
      modifies this
      ensures ok <==> LoadImage(place, name).Some?
      ensures images == if ok then old(images)[id := Some(LoadImage(place, name).value)] else old(images)
    {
      if name !in place.files {
        return false;
      }
      var content := place.files[name];
      if |content| == 0 {
        return false;
      }
      images := images[id := Some(Image(Some(name), content))];
      return true;
    }

    method GetLegacyProgrammer(layout: Value) returns (ok: bool)
      requires |images| == IMAGE_SLOTS
      modifies this
      ensures ok <==> LegacyProgrammer(place, old(images), layout).Some?
      ensures ok ==> images == LegacyProgrammer(place, old(images), layout).value
    {
      hide LoadImage, Child;
      var programmers := GetChild(Some(layout), "programmer");
      if programmers.None? || Count(programmers) != 1 {
        return false;
      }
      var first := programmers.value.items[0];
      if !first.String? {
        return false;
      }
      ok := LoadSaharaImage(CString(first.s), EHOSTDL);
    }

    method GetProgrammer(m: Member) returns (ok: bool)
      requires |images| == IMAGE_SLOTS
      modifies this
      ensures ok <==> AddProgrammer(place, old(images), m).Some?
      ensures ok ==> images == AddProgrammer(place, old(images), m).value
    {
      hide LoadImage, Strtoul;
      var key := CString(m.key);
      var n := Strtoul(key, 0);
      if n.1 == 0 || n.1 != |key| || n.0 == 0 || n.0 >= IMAGE_SLOTS {
        return false;
      }
      if !m.value.String? {
        return false;
      }
      ok := LoadSaharaImage(CString(m.value.s), n.0);
    }

    method GetProgrammerMap(layout: Value) returns (ok: bool)
      requires |images| == IMAGE_SLOTS
      modifies this
      ensures ok <==> ProgrammerMap(place, old(images), layout).Some?
      ensures ok ==> images == ProgrammerMap(place, old(images), layout).value
    {
      hide AddProgrammer, Child;
      var programmers := GetChild(Some(layout), "programmer");
      if programmers.None? || !programmers.value.Object? {
        return false;
      }
      var members := programmers.value.members;
      for i := 0 to |members|
        invariant AddProgrammers(place, old(images), members[..i]) == Some(images)
      {
        assert members[..i + 1][..i] == members[..i];
        ok := GetProgrammer(members[i]);
        if !ok {
          ProgrammersFail(place, old(images), members, i + 1);
          return false;
        }
      }
      assert members[..|members|] == members;
      return |members| > 0;
    }

    method LoadXml(ops: OpList, name: bytes, isNand: bool) returns (ok: bool)
      modifies ops
      ensures ok <==> LoadXmlFile(xml, place, name, isNand).Some?
      ensures ok ==> ops.ops == old(ops.ops) + LoadXmlFile(xml, place, name, isNand).value
    {
      hide LoadPatches, LoadTags;
      if name !in place.files || |place.files[name]| > INT_MAX {
        return false;
      }
      var doc := xml.read(place.files[name]);
      if doc.None? {
        return false;
      }
      if doc.value.root == "patches" {
        ok := ops.PatchLoadXml(doc.value);
      } else if doc.value.root == "data" {
        ok := ops.ProgramLoadXml(place, doc.value, isNand, false);
      } else {
        ok := false;
      }
    }

    method LoadAllFiles(ops: OpList, files: seq<Value>, isNand: bool) returns (ok: bool)
      modifies ops
      ensures ok <==> LoadFiles(xml, place, files, isNand).Some?
      ensures ok ==> ops.ops == old(ops.ops) + LoadFiles(xml, place, files, isNand).value
    {
      hide LoadXmlFile;
      for i := 0 to |files|
        invariant LoadFiles(xml, place, files[..i], isNand).Some?
        invariant ops.ops == old(ops.ops) + LoadFiles(xml, place, files[..i], isNand).value
      {
        assert files[..i + 1][..i] == files[..i];
        ok := false;
        if files[i].String? {
          ok := LoadXml(ops, CString(files[i].s), isNand);
        }
        if !ok {
          FilesFail(xml, place, files, isNand, i + 1);
          return false;
        }
      }
      assert files[..|files|] == files;
      return true;
    }

    method EnumerateProgrammable(ops: OpList, v: Value) returns (ok: bool)
      modifies ops
      ensures ok <==> LoadProgrammable(xml, place, v).Some?
      ensures ok ==> ops.ops == old(ops.ops) + LoadProgrammable(xml, place, v).value
    {
      hide LoadFiles, StringAt, NumberAt, Child, Text;
      var memory, slot := StringAt(Some(v), "memory"), NumberAt(Some(v), "slot");
      var files := GetChild(Some(v), "files");
      if memory.None? || slot.None? || files.None? {
        return false;
      }
      ops.Append(Configure(DecodeStorageType(memory.value)));
      if !files.value.Array? {
        return false;
      }
      ok := LoadAllFiles(ops, files.value.items, memory.value == Text("nand"));
    }

    method EnumerateProgrammables(ops: OpList, list: Value) returns (ok: bool)
      modifies ops
      ensures ok <==> Enumerate(xml, place, list).Some?
      ensures ok ==> ops.ops == old(ops.ops) + Enumerate(xml, place, list).value
    {
      hide LoadProgrammable;
      if !list.Array? || |list.items| == 0 {
        return false;
      }
      var items := list.items;
      for i := 0 to |items|
        invariant LoadProgrammables(xml, place, items[..i]).Some?
        invariant ops.ops == old(ops.ops) + LoadProgrammables(xml, place, items[..i]).value
      {
        assert items[..i + 1][..i] == items[..i];
        ok := EnumerateProgrammable(ops, items[i]);
        if !ok {
          ProgrammablesFail(xml, place, items, i + 1);
          return false;
        }
      }
      assert items[..|items|] == items;
      return true;
    }

    /** Move the operations of the selected storage types behind those of `ops`. */
    method MoveSelected(from: OpList, ops: OpList, filter: Option<set<StorageType>>) returns (matched: nat)
      requires from != ops
      modifies ops
      ensures ops.ops == old(ops.ops) + Selected(from.ops, filter)
      ensures matched == |Selected(from.ops, filter)|
    {
      var current := Unknown;
      matched := 0;
      for i := 0 to |from.ops|
        invariant from.ops == old(from.ops) && current == RunningType(from.ops[..i])
        invariant ops.ops == old(ops.ops) + Selected(from.ops[..i], filter)
        invariant matched == |Selected(from.ops[..i], filter)|
      {
        var op := from.ops[i];
        assert from.ops[..i + 1][..i] == from.ops[..i];
        if op.Configure? && op.storage != Unknown {
          current := op.storage;
        }
        if filter.None? || current in filter.value {
          ops.Append(op);
          matched := matched + 1;
        }
      }
      assert from.ops[..|from.ops|] == from.ops;
    }

    method Select(layouts: Option<Value>, selector: Option<bytes>) returns (layout: Option<Value>)
      ensures layout == SelectLayout(layouts, selector)
    {
      hide StringAt;
      if layouts.None? || !layouts.value.Array? || |layouts.value.items| == 0 {
        return None;
      }
      var items := layouts.value.items;
      if selector.None? {
        return if |items| == 1 then Some(items[0]) else None;
      }
      for i := 0 to |items|
        invariant forall j :: 0 <= j < i ==> StringAt(Some(items[j]), "name") != selector
      {
        if StringAt(Some(items[i]), "name") == selector {
          return Some(items[i]);
        }
      }
      return None;
    }

    method GetProgrammers(layout: Value, usesMap: bool) returns (ok: bool)
      requires |images| == IMAGE_SLOTS
      modifies this
      ensures var t := if usesMap then ProgrammerMap(place, old(images), layout)
              else LegacyProgrammer(place, old(images), layout);
              (ok <==> t.Some?) && (ok ==> images == t.value)
    {
      hide ProgrammerMap, LegacyProgrammer;
      if usesMap {
        ok := GetProgrammerMap(layout);
      } else {
        ok := GetLegacyProgrammer(layout);
      }
    }

    method LoadJson(ops: OpList, json: Value, selector: Option<bytes>, filter: Option<set<StorageType>>)
        returns (ok: bool)
      requires |images| == IMAGE_SLOTS
      modifies this, ops
      ensures ok <==> Interpret(xml, place, old(images), json, selector, filter).Some?
      ensures ok ==> Interpret(xml, place, old(images), json, selector, filter).value.0 == images
      ensures ok ==> ops.ops == old(ops.ops) + Interpret(xml, place, old(images), json, selector, filter).value.1
    {
      hide ProgrammerMap, LegacyProgrammer, Enumerate, Selected, SelectLayout, Child, StringAt, Text;
      var version := StringAt(Some(json), "version");
      if version != Some(Text("1.2.0-qdl")) && version != Some(Text("1.1.0")) {
        return false;
      }
      var products := GetChild(Some(json), "products");
      if Count(products) != 1 {
        return false;
      }
      var layouts := GetChild(Some(products.value.items[0]), "layouts");
      var layout := Select(layouts, selector);
      if layout.None? {
        return false;
      }
      ok := GetProgrammers(layout.value, version == Some(Text("1.2.0-qdl")));
      if !ok {
        return false;
      }
      var programmable := GetChild(layout, "programmable");
      if programmable.None? {
        return false;
      }
      ok := LoadOps(ops, programmable.value, filter);
    }

    method LoadOps(ops: OpList, list: Value, filter: Option<set<StorageType>>) returns (ok: bool)
      modifies ops
      ensures ok <==> Enumerate(xml, place, list).Some? && Selected(Enumerate(xml, place, list).value, filter) != []
      ensures ok ==> ops.ops == old(ops.ops) + Selected(Enumerate(xml, place, list).value, filter)
    {
      hide Enumerate, Selected;
      var flashmapOps := new OpList();
      ok := EnumerateProgrammables(flashmapOps, list);
      if !ok {
        return false;
      }
      assert flashmapOps.ops == Enumerate(xml, place, list).value;
      var matched := MoveSelected(flashmapOps, ops, filter);
      ok := matched > 0;
    }

    /** `flashmap_load` */
    method LoadFlashmap(ops: OpList, name: bytes, selector: Option<bytes>, filter: Option<set<StorageType>>)
        returns (ok: bool)
      requires |images| == IMAGE_SLOTS
      modifies this, ops
      ensures ok <==> Load(xml, place, old(images), name, selector, filter).Some?
      ensures ok ==> Load(xml, place, old(images), name, selector, filter).value.0 == images
      ensures ok ==> ops.ops == old(ops.ops) + Load(xml, place, old(images), name, selector, filter).value.1
    {
      hide Interpret, Parse;
      if name !in place.files {
        return false;
      }
      var json := JsonParser.ParseBuffer(place.files[name]);
      if json.None? {
        return false;
      }
      ok := LoadJson(ops, json.value, selector, filter);
    }
  }
}

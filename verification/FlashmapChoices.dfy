/**
 * Choices when a flashmap is loaded: flashing only some of its storages leaves those whole, and nothing else;
 * and a flashmap of the older version has one programmer.
 */
module FlashmapChoices {
  import opened Bytes
  import opened Options
  import opened Ops
  import opened Images
  import opened ProgramLoad
  import opened Meaning
  import opened JsonSpec
  import opened FlashmapLoad
  import PackagedFlashmap

  predicate KnownStorages(ops: seq<Op>) {
    forall i :: 0 <= i < |ops| && ops[i].Configure? ==> ops[i].storage != Unknown
  }

  lemma {:induction false} RunningIsCurrent(ops: seq<Op>)
    requires KnownStorages(ops)
    ensures RunningType(ops) == if Current(ops).Some? then Current(ops).value else Unknown
    ensures Current(ops) != Some(Unknown)
  {
    if |ops| > 0 { RunningIsCurrent(ops[..|ops| - 1]); }
  }

  /** What is configured among the selected operations, at a selected storage. */
  lemma {:induction false} CurrentSelected(ops: seq<Op>, filter: set<StorageType>)
    requires KnownStorages(ops)
    ensures Current(ops).Some? && Current(ops).value in filter ==> Current(Selected(ops, Some(filter))) == Current(ops)
    ensures Current(ops).None? ==> Current(Selected(ops, Some(filter))).None?
    ensures Current(Selected(ops, Some(filter))).Some? ==> Current(Selected(ops, Some(filter))).value in filter
  {
    if |ops| > 0 {
      var init, op := ops[..|ops| - 1], ops[|ops| - 1];
      CurrentSelected(init, filter);
      RunningIsCurrent(ops);
      Appended(Selected(init, Some(filter)), op);
    }
  }

  lemma Appended(ops: seq<Op>, op: Op)
    ensures Current(ops + [op]) == if op.Configure? then Some(op.storage) else Current(ops)
  {
    assert (ops + [op])[..|ops|] == ops;
  }

  lemma TraceAppended(src: Sources, storageSize: nat, s: StorageType, ops: seq<Op>, op: Op)
    ensures Trace(src, storageSize, s, All, ops + [op])
         == var before := Trace(src, storageSize, s, All, ops);
            var more := if Current(ops) == Some(s) then Actions(src, storageSize, op) else Some([]);
            if before.None? || more.None? then None
            else if more.value == [] then before else Some(before.value + more.value)
  {
    hide Actions;
    assert (ops + [op])[..|ops|] == ops;
    var before := Trace(src, storageSize, s, All, ops);
    if before.Some? { assert before.value + [] == before.value; }
  }

  /** A selected storage receives all that it does without a filter, and any other nothing. */
  lemma {:induction false} SelectedTraces(src: Sources, storageSize: nat, s: StorageType, ops: seq<Op>,
                                          filter: set<StorageType>)
    requires KnownStorages(ops) && s != Unknown
    ensures Trace(src, storageSize, s, All, Selected(ops, Some(filter)))
         == if s in filter then Trace(src, storageSize, s, All, ops) else Some([])
  {
    hide Actions, Trace;
    if |ops| == 0 {
      NothingTraced(src, storageSize, s);
    } else {
      var init, op := ops[..|ops| - 1], ops[|ops| - 1];
      assert init + [op] == ops;
      SelectedTraces(src, storageSize, s, init, filter);
      CurrentSelected(init, filter);
      RunningIsCurrent(init);
      RunningIsCurrent(ops);
      TraceAppended(src, storageSize, s, init, op);
      TraceAppended(src, storageSize, s, Selected(init, Some(filter)), op);
      if op.Configure? { ConfigureDoesNothing(src, storageSize, op); }
    }
  }

  lemma NothingTraced(src: Sources, storageSize: nat, s: StorageType)
    ensures Trace(src, storageSize, s, All, []) == Some([])
  {
  }

  lemma ConfigureDoesNothing(src: Sources, storageSize: nat, op: Op)
    requires op.Configure?
    ensures Actions(src, storageSize, op) == Some([])
  {
  }

  // ----- The older version

  /** A flashmap of version 1.1.0 with one layout. */
  function Document(layout: Value): Value {
    Object([Member(Text("version"), String(Text("1.1.0"))),
            Member(Text("products"), Array([Object([Member(Text("layouts"), Array([layout]))])]))])
  }

  lemma First(key: string, v: Value, rest: seq<Member>)
    requires CString(Text(key)) == Text(key)
    ensures Child(Some(Object([Member(Text(key), v)] + rest)), key) == Some(v)
  {
    hide Text;
    assert ([Member(Text(key), v)] + rest)[0] == Member(Text(key), v);
  }

  lemma Second(m: Member, key: string, v: Value)
    requires CString(Text(key)) == Text(key) && CString(m.key) != Text(key)
    ensures Child(Some(Object([m, Member(Text(key), v)])), key) == Some(v)
  {
    hide Text;
    var q := Member(Text(key), v);
    assert [m, q][1..] == [q];
    assert FirstIndex([q], key) == 0;
    assert FirstIndex([m, q], key) == 1;
  }

  lemma FirstString(key: string, s: bytes, rest: seq<Member>)
    requires CString(Text(key)) == Text(key) && CString(s) == s
    ensures StringAt(Some(Object([Member(Text(key), String(s))] + rest)), key) == Some(s)
  {
    hide Text, Child;
    First(key, String(s), rest);
  }

  lemma Keys()
    ensures CString(Text("programmer")) == Text("programmer") && CString(Text("programmable")) == Text("programmable")
    ensures CString(Text("version")) == Text("version") && CString(Text("products")) == Text("products")
    ensures CString(Text("layouts")) == Text("layouts") && CString(Text("name")) == Text("name")
    ensures CString(Text("1.1.0")) == Text("1.1.0")
  {
    hide CString, Text, NoNul;
    PackagedFlashmap.PlainKey("programmer");
    PackagedFlashmap.PlainKey("programmable");
    PackagedFlashmap.PlainKey("version");
    PackagedFlashmap.PlainKey("products");
    PackagedFlashmap.PlainKey("layouts");
    PackagedFlashmap.PlainKey("name");
    PackagedFlashmap.PlainKey("1.1.0");
  }

  function OldLayout(programmer: bytes, programmable: Value): Value {
    Object([Member(Text("programmer"), Array([String(programmer)])), Member(Text("programmable"), programmable)])
  }

  lemma OldLayoutFields(programmer: bytes, programmable: Value)
    ensures Child(Some(OldLayout(programmer, programmable)), "programmer") == Some(Array([String(programmer)]))
    ensures Child(Some(OldLayout(programmer, programmable)), "programmable") == Some(programmable)
  {
    hide Child, Text;
    Keys();
    var p, q := Member(Text("programmer"), Array([String(programmer)])), Member(Text("programmable"), programmable);
    assert [p] + [q] == [p, q];
    First("programmer", Array([String(programmer)]), [q]);
    assert |Text("programmer")| != |Text("programmable")|;
    Second(p, "programmable", programmable);
  }

  lemma LegacyFields(layout: Value)
    ensures var d := Document(layout);
            && StringAt(Some(d), "version") == Some(Text("1.1.0"))
            && Child(Some(d), "products") == Some(Array([Object([Member(Text("layouts"), Array([layout]))])]))
            && Child(Some(Object([Member(Text("layouts"), Array([layout]))])), "layouts") == Some(Array([layout]))
  {
    hide Child, Text;
    Keys();
    var products := Array([Object([Member(Text("layouts"), Array([layout]))])]);
    var p, q := Member(Text("version"), String(Text("1.1.0"))), Member(Text("products"), products);
    assert [p] + [q] == [p, q] && [Member(Text("layouts"), Array([layout]))]
        + [] == [Member(Text("layouts"), Array([layout]))];
    FirstString("version", Text("1.1.0"), [q]);
    assert |Text("version")| != |Text("products")|;
    Second(p, "products", products);
    First("layouts", Array([layout]), []);
  }

  /** It loads exactly when its programmer and its storages do, and the programmer goes to slot 13. */
  lemma LegacyMeans(xml: Xml, place: Place, images: ImageTable, programmer: bytes, programmable: Value,
                    filter: Option<set<StorageType>>)
    requires |images| == IMAGE_SLOTS && programmer == CString(programmer)
    ensures var ops := Enumerate(xml, place, programmable);
            Interpret(xml, place, images, Document(OldLayout(programmer, programmable)), None, filter)
            == if programmer !in place.files || place.files[programmer] == [] || ops.None?
                  || Selected(ops.value, filter) == [] then None
               else Some((images[13 := Some(Image(Some(programmer), place.files[programmer]))],
                          Selected(ops.value, filter)))
  {
    hide Child, Enumerate, Selected, Text, OldLayout, Document, StringAt, ProgrammerMap;
    assert |Text("1.1.0")| != |Text("1.2.0-qdl")|;
    OldLayoutFields(programmer, programmable);
    LegacyFields(OldLayout(programmer, programmable));
  }

  // ----- Layouts

  /** Layouts with their names. */
  function Layouts(layouts: seq<(bytes, seq<Member>)>): (r: seq<Value>)
    ensures |r| == |layouts|
  {
    seq(|layouts|, i requires 0 <= i < |layouts| =>
      Object([Member(Text("name"), String(layouts[i].0))] + layouts[i].1))
  }

  /** The first layout of the name that was asked for is taken, and none if there is none of that name. */
  lemma LayoutChosen(layouts: seq<(bytes, seq<Member>)>, name: bytes, i: nat)
    requires forall j :: 0 <= j < |layouts| ==> CString(layouts[j].0) == layouts[j].0
    requires i <= |layouts| && forall j :: 0 <= j < i ==> layouts[j].0 != name
    requires i < |layouts| ==> layouts[i].0 == name
    ensures SelectLayout(Some(Array(Layouts(layouts))), Some(name))
         == if i < |layouts| then Some(Layouts(layouts)[i]) else None
  {
    hide StringAt, Text, Layouts;
    var items, k := Layouts(layouts), LayoutIndex(Layouts(layouts), name);
    forall j | 0 <= j < |layouts| ensures StringAt(Some(items[j]), "name") == Some(layouts[j].0) {
      NameOf(layouts, j);
    }
    assert k == i;
  }

  lemma NameOf(layouts: seq<(bytes, seq<Member>)>, j: nat)
    requires j < |layouts| && CString(layouts[j].0) == layouts[j].0
    ensures StringAt(Some(Layouts(layouts)[j]), "name") == Some(layouts[j].0)
  {
    hide StringAt, Text;
    Keys();
    FirstString("name", layouts[j].0, layouts[j].1);
  }
}

/** Writing `flashmap.json`: a growing buffer, filled line by line. */
module FlashmapWriter {
  import opened Bytes
  import opened Options
  import opened Numerals
  import opened JsonSpec
  import opened Flashmap

  /** The names that a storage contributes to the flashmap. */
  datatype StorageFiles = StorageFiles(memory: bytes, programXml: bytes, patchXml: bytes)

  const VERSION := "1.2.0-qdl"

  function Field(key: string, value: Doc): DMember { DMember(Text(key), value) }

  function Named(s: string): Doc { DString(Text(s)) }

  /** The programmer map: one member for every image there is, in the order of the slots. */
  function ProgrammerMembers(entries: seq<Option<bytes>>): seq<DMember> {
    if |entries| == 0 then []
    else
      var before, last := ProgrammerMembers(entries[..|entries| - 1]), entries[|entries| - 1];
      if last.None? then before else before + [DMember(Decimal(|entries| - 1), DString(last.value))]
  }

  function StorageDoc(s: StorageFiles): Doc {
    DObject([Field("memory", DString(s.memory)), Field("slot", DNat(0)),
             Field("files", DArray([DString(s.programXml), DString(s.patchXml)]))])
  }

  function StorageDocs(storages: seq<StorageFiles>): (r: seq<Doc>)
    ensures |r| == |storages|
  {
    seq(|storages|, i requires 0 <= i < |storages| => StorageDoc(storages[i]))
  }

  function LayoutDoc(entries: seq<Option<bytes>>, storages: seq<StorageFiles>): Doc {
    DObject([Field("name", Named("layout0")), Field("programmer", DObject(ProgrammerMembers(entries))),
             Field("programmable", DArray(StorageDocs(storages)))])
  }

  function ProductDoc(entries: seq<Option<bytes>>, storages: seq<StorageFiles>): Doc {
    DObject([Field("name", Named("contents")), Field("layouts", DArray([LayoutDoc(entries, storages)]))])
  }

  function FlashmapDoc(entries: seq<Option<bytes>>, storages: seq<StorageFiles>): Doc {
    DObject([Field("version", Named(VERSION)), Field("products", DArray([ProductDoc(entries, storages)]))])
  }

  // ----- How documents of a few parts are laid out

  lemma MembersOfTwo(a: DMember, b: DMember, n: nat)
    ensures PrettyMembers([a, b], n) == PrettyMember(a, n) + COMMA_NEWLINE + PrettyMember(b, n)
  {
    hide PrettyMember;
    assert [a, b][1..] == [b];
  }

  lemma MembersOfThree(a: DMember, b: DMember, c: DMember, n: nat)
    ensures PrettyMembers([a, b, c], n)
         == PrettyMember(a, n) + COMMA_NEWLINE + (PrettyMember(b, n) + COMMA_NEWLINE + PrettyMember(c, n))
  {
    hide PrettyMember;
    assert [a, b, c][1..] == [b, c];
    MembersOfTwo(b, c, n);
  }

  lemma {:induction false} MembersAppend(ms: seq<DMember>, m: DMember, n: nat)
    ensures PrettyMembers(ms + [m], n)
         == if ms == [] then PrettyMember(m, n) else PrettyMembers(ms, n) + COMMA_NEWLINE + PrettyMember(m, n)
  {
    hide PrettyMember;
    if |ms| > 0 {
      assert (ms + [m])[1..] == ms[1..] + [m];
      MembersAppend(ms[1..], m, n);
    }
  }

  lemma FiveParts(a: bytes, b: bytes, c: bytes, d: bytes, e: bytes)
    ensures a + b + (c + d + e) == a + b + c + d + e
  {
  }

  lemma {:induction false} ItemsAppend(ds: seq<Doc>, d: Doc, n: nat)
    ensures PrettyItems(ds + [d], n)
         == if ds == [] then Pad(n) + Pretty(d, n) else PrettyItems(ds, n) + COMMA_NEWLINE + (Pad(n) + Pretty(d, n))
  {
    hide Pretty, Pad;
    if |ds| > 0 {
      assert (ds + [d])[1..] == ds[1..] + [d];
      ItemsAppend(ds[1..], d, n);
      if |ds| > 1 {
        FiveParts(Pad(n) + Pretty(ds[0], n), COMMA_NEWLINE, PrettyItems(ds[1..], n), COMMA_NEWLINE,
                  Pad(n) + Pretty(d, n));
      }
    }
  }

  /** A literal without quotes, backslashes and control characters. */
  predicate IsPlain(s: string) {
    forall i :: 0 <= i < |s| ==> ' ' <= s[i] < 256 as char && s[i] != '"' && s[i] != '\\'
  }

  /** A literal in quotes. */
  function Quoted(s: string): bytes { [QUOTE] + Text(s) + [QUOTE] }

  lemma QuotedIsEscaped(s: string)
    requires IsPlain(s)
    ensures Quoted(s) == Escaped(Text(s))
  {
    PlainEscapes(Text(s));
  }

  class JsonBuffer {
    var buf: bytes

    constructor ()
      ensures buf == []
    {
      buf := [];
    }

    method AppendRaw(s: bytes)
      modifies this
      ensures buf == old(buf) + s
    {
      buf := buf + s;
    }

    /** `flashmap_json_append_escaped_string` */
    method AppendEscapedString(s: bytes)
      requires NoNul(s)
      modifies this
      ensures buf == old(buf) + Escaped(s)
    {
      hide EscapeByte;
      AppendRaw([QUOTE]);
      assert s[..0] == [];
      for i := 0 to |s|
        invariant buf == old(buf) + ([QUOTE] + EscapeBytes(s[..i]))
      {
        assert s[..i + 1][..i] == s[..i];
        AppendEscapedByte(s[i]);
      }
      assert s[..|s|] == s;
      AppendRaw([QUOTE]);
    }

    method AppendEscapedByte(ch: byte)
      modifies this
      ensures buf == old(buf) + EscapeByte(ch)
    {
      hide Hex;
      if ch == 34 {
        AppendRaw([92, 34]);
      } else if ch == 92 {
        AppendRaw([92, 92]);
      } else if ch == 8 {
        AppendRaw([92, 98]);
      } else if ch == 12 {
        AppendRaw([92, 102]);
      } else if ch == 10 {
        AppendRaw([92, 110]);
      } else if ch == 13 {
        AppendRaw([92, 114]);
      } else if ch == 9 {
        AppendRaw([92, 116]);
      } else if ch < 0x20 {
        AppendRaw([92, 117] + Hex(ch, 4));
      } else {
        AppendRaw([ch]);
      }
    }

    /** The line of one programmer image. */
    method AppendProgrammerLine(i: nat, name: bytes)
      requires NoNul(name)
      modifies this
      ensures buf == old(buf) + PrettyMember(DMember(Decimal(i), DString(name)), 12)
    {
      hide Escaped, Decimal, Pad;
      NumberIsPlain(i);
      AppendRaw(Pad(12) + ([QUOTE] + Decimal(i) + [QUOTE]) + [58, 32]);
      AppendEscapedString(name);
    }

    /** One line for every programmer image. */
    method AppendProgrammers(entries: seq<Option<bytes>>)
      requires forall i :: 0 <= i < |entries| && entries[i].Some? ==> NoNul(entries[i].value)
      modifies this
      ensures buf == old(buf) + PrettyMembers(ProgrammerMembers(entries), 12)
    {
      hide Escaped, PrettyMembers, PrettyMember, Decimal, Pad;
      var first := true;
      assert entries[..0] == [];
      NothingYet(12);
      assert buf == old(buf) + PrettyMembers(ProgrammerMembers(entries[..0]), 12);
      for i := 0 to |entries|
        invariant first <==> ProgrammerMembers(entries[..i]) == []
        invariant buf == old(buf) + PrettyMembers(ProgrammerMembers(entries[..i]), 12)
      {
        assert entries[..i + 1][..i] == entries[..i];
        if entries[i].Some? {
          MembersAppend(ProgrammerMembers(entries[..i]), DMember(Decimal(i), DString(entries[i].value)), 12);
          if !first {
            AppendRaw(COMMA_NEWLINE);
          }
          first := false;
          AppendProgrammerLine(i, entries[i].value);
        }
      }
      assert entries[..|entries|] == entries;
    }

    /** The key of a member, at the start of a line. */
    method AppendKey(n: nat, key: string)
      requires IsPlain(key)
      modifies this
      ensures buf == old(buf) + (Pad(n) + Escaped(Text(key)) + [58, 32])
    {
      hide Text;
      QuotedIsEscaped(key);
      AppendRaw(Pad(n) + Quoted(key) + [58, 32]);
    }

    /** A line that ends in an opening bracket. */
    method AppendOpening(n: nat, key: string, bracket: byte)
      requires IsPlain(key)
      modifies this
      ensures buf == old(buf) + (Pad(n) + Escaped(Text(key)) + [58, 32] + ([bracket] + NEWLINE))
    {
      hide Escaped, Text;
      AppendKey(n, key);
      AppendRaw([bracket] + NEWLINE);
    }

    /** A member with a literal as its value, and more to follow. */
    method AppendNamed(n: nat, key: string, value: string)
      requires IsPlain(key) && IsPlain(value)
      modifies this
      ensures buf == old(buf) + (PrettyMember(Field(key, Named(value)), n) + COMMA_NEWLINE)
    {
      hide Escaped, Text;
      QuotedIsEscaped(value);
      AppendKey(n, key);
      AppendRaw(Quoted(value) + COMMA_NEWLINE);
    }

    /** The lines of one storage. */
    method AppendStorage(s: StorageFiles)
      requires NoNul(s.programXml) && NoNul(s.patchXml)
      requires EscapeBytes(s.memory) == s.memory
      modifies this
      ensures buf == old(buf) + (Pad(12) + Pretty(StorageDoc(s), 12))
    {
      hide PrettyMember, Pretty, Pad;
      ghost var memory := Field("memory", DString(s.memory));
      ghost var slot := Field("slot", DNat(0));
      ghost var files := Field("files", DArray([DString(s.programXml), DString(s.patchXml)]));
      AppendRaw(Pad(12) + ([123] + NEWLINE));
      AppendMemory(s.memory);
      AppendSlot();
      AppendFiles(s);
      AppendRaw(NEWLINE + Pad(12) + [125]);
      ObjectOfThree(memory, slot, files, 12);
      ThreeMembers(old(buf), PrettyMember(memory, 14), PrettyMember(slot, 14), PrettyMember(files, 14), 12);
    }

    method AppendMemory(memory: bytes)
      requires EscapeBytes(memory) == memory
      modifies this
      ensures buf == old(buf) + (PrettyMember(Field("memory", DString(memory)), 14) + COMMA_NEWLINE)
    {
      hide Escaped, Pad, Text;
      AppendKey(14, "memory");
      AppendRaw([QUOTE] + memory + [QUOTE] + COMMA_NEWLINE);
      EscapedIs(memory);
    }

    method AppendSlot()
      modifies this
      ensures buf == old(buf) + (PrettyMember(Field("slot", DNat(0)), 14) + COMMA_NEWLINE)
    {
      hide Escaped, Pad, Text;
      AppendKey(14, "slot");
      AppendRaw([48] + COMMA_NEWLINE);
    }

    method AppendFiles(s: StorageFiles)
      requires NoNul(s.programXml) && NoNul(s.patchXml)
      modifies this
      ensures buf == old(buf) + PrettyMember(Field("files", DArray([DString(s.programXml), DString(s.patchXml)])), 14)
    {
      hide Escaped, Pad, Text, PrettyItems, Pretty;
      AppendOpening(14, "files", 91);
      AppendRaw(Pad(16));
      AppendEscapedString(s.programXml);
      AppendRaw(COMMA_NEWLINE);
      AppendRaw(Pad(16));
      AppendEscapedString(s.patchXml);
      AppendRaw(NEWLINE + Pad(14) + [93]);
      ItemsOfTwo(DString(s.programXml), DString(s.patchXml), 16);
      ArrayMember(old(buf), "files", [DString(s.programXml), DString(s.patchXml)], 14);
      StringsArePretty(s.programXml, 16);
      StringsArePretty(s.patchXml, 16);
      Grouped(old(buf) + (Pad(14) + Escaped(Text("files")) + [58, 32] + ([91] + NEWLINE)),
              Pad(16), Escaped(s.programXml), Escaped(s.patchXml));
    }

    method AppendStorages(storages: seq<StorageFiles>)
      requires forall i :: 0 <= i < |storages| ==> Printable(storages[i])
      modifies this
      ensures buf == old(buf) + PrettyItems(StorageDocs(storages), 12)
    {
      hide Pretty, Pad, PrettyItems;
      var first := true;
      NothingYet(12);
      assert StorageDocs(storages[..0]) == [];
      for i := 0 to |storages|
        invariant first <==> i == 0
        invariant buf == old(buf) + PrettyItems(StorageDocs(storages[..i]), 12)
      {
        assert StorageDocs(storages[..i + 1]) == StorageDocs(storages[..i]) + [StorageDoc(storages[i])];
        ItemsAppend(StorageDocs(storages[..i]), StorageDoc(storages[i]), 12);
        if !first {
          AppendRaw(COMMA_NEWLINE);
        }
        first := false;
        assert Printable(storages[i]);
        AppendStorage(storages[i]);
      }
      assert storages[..|storages|] == storages;
    }

    method AppendLayout(entries: seq<Option<bytes>>, storages: seq<StorageFiles>)
      requires forall i :: 0 <= i < |entries| && entries[i].Some? ==> NoNul(entries[i].value)
      requires forall i :: 0 <= i < |storages| ==> Printable(storages[i])
      modifies this
      ensures buf == old(buf) + (Pad(8) + Pretty(LayoutDoc(entries, storages), 8))
    {
      hide PrettyMember, Pretty, Pad;
      ghost var name := Field("name", Named("layout0"));
      ghost var programmer := Field("programmer", DObject(ProgrammerMembers(entries)));
      ghost var programmable := Field("programmable", DArray(StorageDocs(storages)));
      AppendRaw(Pad(8) + ([123] + NEWLINE));
      AppendNamed(10, "name", "layout0");
      AppendProgrammer(entries);
      AppendProgrammable(storages);
      AppendRaw(NEWLINE + Pad(8) + [125]);
      ObjectOfThree(name, programmer, programmable, 8);
      ThreeMembers(old(buf), PrettyMember(name, 10), PrettyMember(programmer, 10), PrettyMember(programmable, 10), 8);
    }

    method AppendProgrammer(entries: seq<Option<bytes>>)
      requires forall i :: 0 <= i < |entries| && entries[i].Some? ==> NoNul(entries[i].value)
      modifies this
      ensures buf
           == old(buf) + (PrettyMember(Field("programmer", DObject(ProgrammerMembers(entries))), 10) + COMMA_NEWLINE)
    {
      hide Escaped, Pad, Text, PrettyMembers, Pretty;
      AppendOpening(10, "programmer", 123);
      AppendProgrammers(entries);
      AppendRaw(NEWLINE + Pad(10) + [125]);
      ObjectMember(old(buf), "programmer", ProgrammerMembers(entries), 10);
      AppendRaw(COMMA_NEWLINE);
    }

    method AppendProgrammable(storages: seq<StorageFiles>)
      requires forall i :: 0 <= i < |storages| ==> Printable(storages[i])
      modifies this
      ensures buf == old(buf) + PrettyMember(Field("programmable", DArray(StorageDocs(storages))), 10)
    {
      hide Escaped, Pad, Text, PrettyItems, Pretty;
      AppendOpening(10, "programmable", 91);
      AppendStorages(storages);
      AppendRaw(NEWLINE + Pad(10) + [93]);
      ArrayMember(old(buf), "programmable", StorageDocs(storages), 10);
    }

    method AppendProduct(entries: seq<Option<bytes>>, storages: seq<StorageFiles>)
      requires forall i :: 0 <= i < |entries| && entries[i].Some? ==> NoNul(entries[i].value)
      requires forall i :: 0 <= i < |storages| ==> Printable(storages[i])
      modifies this
      ensures buf == old(buf) + (Pad(4) + Pretty(ProductDoc(entries, storages), 4))
    {
      hide PrettyMember, Pretty, Pad;
      ghost var name := Field("name", Named("contents"));
      ghost var layouts := Field("layouts", DArray([LayoutDoc(entries, storages)]));
      AppendRaw(Pad(4) + ([123] + NEWLINE));
      AppendNamed(6, "name", "contents");
      AppendLayouts(entries, storages);
      AppendRaw(NEWLINE + Pad(4) + [125]);
      ObjectOfTwo(name, layouts, 4);
      TwoMembers(old(buf) + Pad(4), PrettyMember(name, 6), PrettyMember(layouts, 6), Pad(4));
      assert old(buf) + (Pad(4) + ([123] + NEWLINE)) == old(buf) + Pad(4) + ([123] + NEWLINE);
    }

    method AppendLayouts(entries: seq<Option<bytes>>, storages: seq<StorageFiles>)
      requires forall i :: 0 <= i < |entries| && entries[i].Some? ==> NoNul(entries[i].value)
      requires forall i :: 0 <= i < |storages| ==> Printable(storages[i])
      modifies this
      ensures buf == old(buf) + PrettyMember(Field("layouts", DArray([LayoutDoc(entries, storages)])), 6)
    {
      hide Escaped, Pad, Text, PrettyItems, Pretty;
      AppendOpening(6, "layouts", 91);
      AppendLayout(entries, storages);
      AppendRaw(NEWLINE + Pad(6) + [93]);
      ItemsOfOne(LayoutDoc(entries, storages), 8);
      ArrayMember(old(buf), "layouts", [LayoutDoc(entries, storages)], 6);
    }

    /** `flashmap_build_json` */
    method BuildJson(entries: seq<Option<bytes>>, storages: seq<StorageFiles>)
      requires forall i :: 0 <= i < |entries| && entries[i].Some? ==> NoNul(entries[i].value)
      requires forall i :: 0 <= i < |storages| ==> Printable(storages[i])
      modifies this
      ensures buf == old(buf) + (Pretty(FlashmapDoc(entries, storages), 0) + NEWLINE)
    {
      hide PrettyMember, Pretty, Pad;
      ghost var version := Field("version", Named(VERSION));
      ghost var products := Field("products", DArray([ProductDoc(entries, storages)]));
      AppendRaw([123] + NEWLINE);
      AppendNamed(2, "version", VERSION);
      AppendProducts(entries, storages);
      AppendRaw(NEWLINE + Pad(0) + [125]);
      ObjectOfTwo(version, products, 0);
      TwoMembers(old(buf), PrettyMember(version, 2), PrettyMember(products, 2), Pad(0));
      AppendRaw(NEWLINE);
    }

    method AppendProducts(entries: seq<Option<bytes>>, storages: seq<StorageFiles>)
      requires forall i :: 0 <= i < |entries| && entries[i].Some? ==> NoNul(entries[i].value)
      requires forall i :: 0 <= i < |storages| ==> Printable(storages[i])
      modifies this
      ensures buf == old(buf) + PrettyMember(Field("products", DArray([ProductDoc(entries, storages)])), 2)
    {
      hide Escaped, Pad, Text, PrettyItems, Pretty;
      AppendOpening(2, "products", 91);
      AppendProduct(entries, storages);
      AppendRaw(NEWLINE + Pad(2) + [93]);
      ItemsOfOne(ProductDoc(entries, storages), 4);
      ArrayMember(old(buf), "products", [ProductDoc(entries, storages)], 2);
    }
  }

  /** Names that can be written: the memory name needs no escapes. */
  predicate Printable(s: StorageFiles) {
    NoNul(s.programXml) && NoNul(s.patchXml) && EscapeBytes(s.memory) == s.memory
  }

  lemma ThreeMembers(start: bytes, a: bytes, b: bytes, c: bytes, n: nat)
    ensures start + (Pad(n) + ([123] + NEWLINE)) + (a + COMMA_NEWLINE) + (b + COMMA_NEWLINE) + c
         + (NEWLINE + Pad(n) + [125])
         == start
             + (Pad(n) + ([123] + NEWLINE + (a + COMMA_NEWLINE + (b + COMMA_NEWLINE + c)) + NEWLINE + Pad(n) + [125]))
  {
    hide Pad;
  }

  lemma TwoMembers(start: bytes, a: bytes, b: bytes, pad: bytes)
    ensures start + ([123] + NEWLINE) + (a + COMMA_NEWLINE) + b + (NEWLINE + pad + [125])
         == start + ([123] + NEWLINE + (a + COMMA_NEWLINE + b) + NEWLINE + pad + [125])
  {
  }

  lemma Grouped(start: bytes, pad: bytes, a: bytes, b: bytes)
    ensures start + pad + a + COMMA_NEWLINE + pad + b == start + (pad + a + COMMA_NEWLINE + (pad + b))
  {
  }

  lemma StringsArePretty(s: bytes, n: nat)
    ensures Pretty(DString(s), n) == Escaped(s)
  {
  }

  lemma ItemsOfOne(d: Doc, n: nat)
    ensures PrettyItems([d], n) == Pad(n) + Pretty(d, n)
  {
    hide Pretty, Pad;
  }

  /** A member whose value is an array, line by line. */
  lemma ArrayMember(start: bytes, key: string, items: seq<Doc>, n: nat)
    ensures start + (Pad(n) + Escaped(Text(key)) + [58, 32] + ([91] + NEWLINE)) + PrettyItems(items, n + 2)
            + (NEWLINE + Pad(n) + [93])
         == start + PrettyMember(Field(key, DArray(items)), n)
  {
    hide Pad, Escaped, Text, PrettyItems;
    var k, x := Pad(n) + Escaped(Text(key)) + [58, 32], PrettyItems(items, n + 2);
    assert k + ([91] + NEWLINE) + x + (NEWLINE + Pad(n) + [93]) == k + ([91] + NEWLINE + x + NEWLINE + Pad(n) + [93]);
  }

  lemma ObjectMember(start: bytes, key: string, members: seq<DMember>, n: nat)
    ensures start + (Pad(n) + Escaped(Text(key)) + [58, 32] + ([123] + NEWLINE)) + PrettyMembers(members, n + 2)
            + (NEWLINE + Pad(n) + [125])
         == start + PrettyMember(Field(key, DObject(members)), n)
  {
    hide Pad, Escaped, Text, PrettyMembers;
    var k, x := Pad(n) + Escaped(Text(key)) + [58, 32], PrettyMembers(members, n + 2);
    assert k + ([123] + NEWLINE) + x + (NEWLINE + Pad(n) + [125])
        == k + ([123] + NEWLINE + x + NEWLINE + Pad(n) + [125]);
  }

  lemma NothingYet(n: nat)
    ensures PrettyMembers([], n) == [] && PrettyItems([], n) == [] && ProgrammerMembers([]) == []
  {
  }

  lemma NumberIsPlain(n: nat)
    ensures Escaped(Decimal(n)) == [QUOTE] + Decimal(n) + [QUOTE]
  {
    PlainEscapes(Decimal(n));
  }

  lemma EscapedIs(s: bytes)
    ensures Escaped(s) == [QUOTE] + EscapeBytes(s) + [QUOTE]
  {
  }

  lemma ItemsOfTwo(a: Doc, b: Doc, n: nat)
    ensures PrettyItems([a, b], n) == Pad(n) + Pretty(a, n) + COMMA_NEWLINE + (Pad(n) + Pretty(b, n))
  {
    hide Pretty, Pad;
    assert [a, b][1..] == [b];
  }

  lemma ObjectOfTwo(a: DMember, b: DMember, n: nat)
    ensures Pretty(DObject([a, b]), n)
         == [123] + NEWLINE + (PrettyMember(a, n + 2) + COMMA_NEWLINE + PrettyMember(b, n + 2)) + NEWLINE + Pad(n)
             + [125]
  {
    hide PrettyMember, Pad;
    MembersOfTwo(a, b, n + 2);
  }

  lemma ObjectOfThree(a: DMember, b: DMember, c: DMember, n: nat)
    ensures Pretty(DObject([a, b, c]), n)
         == [123] + NEWLINE + (PrettyMember(a, n + 2) + COMMA_NEWLINE + (PrettyMember(b, n + 2) + COMMA_NEWLINE
                               + PrettyMember(c, n + 2))) + NEWLINE + Pad(n) + [125]
  {
    hide PrettyMember, Pad;
    MembersOfThree(a, b, c, n + 2);
  }
}

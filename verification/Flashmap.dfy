/** The flashmap of an installer package: JSON text, and how it is written. */
module Flashmap {
  import opened Bytes
  import opened Options
  import opened Numerals
  import opened JsonSpec
  import opened JsonGrammar
  import opened JsonTheorems

  // ----- Strings

  function EscapeByte(c: byte): bytes {
    if c == 34 then [92, 34]
    else if c == 92 then [92, 92]
    else if c == 8 then [92, 98]
    else if c == 12 then [92, 102]
    else if c == 10 then [92, 110]
    else if c == 13 then [92, 114]
    else if c == 9 then [92, 116]
    else if c < 0x20 then [92, 117] + Hex(c, 4)
    else [c]
  }

  function EscapeBytes(s: bytes): bytes {
    if |s| == 0 then [] else EscapeBytes(s[..|s| - 1]) + EscapeByte(s[|s| - 1])
  }

  /** A string literal. */
  function Escaped(s: bytes): bytes { [QUOTE] + EscapeBytes(s) + [QUOTE] }

  /** What each byte is written as, as the grammar sees it. */
  function ItemOf(c: byte): Item {
    if c == 34 || c == 92 then Short(c)
    else if c == 8 then Short(98)
    else if c == 12 then Short(102)
    else if c == 10 then Short(110)
    else if c == 13 then Short(114)
    else if c == 9 then Short(116)
    else if c < 0x20 then Unit(Hex(c, 4))
    else Plain(c)
  }

  function ItemsOf(s: bytes): (r: seq<Item>)
    ensures |r| == |s|
  {
    seq(|s|, i requires 0 <= i < |s| => ItemOf(s[i]))
  }

  lemma ItemOfByte(c: byte)
    ensures ItemOk(ItemOf(c)) && ItemText(ItemOf(c)) == EscapeByte(c) && ItemMeaning(ItemOf(c)) == [c]
  {
    hide Hex, HexUnit;
    if c < 0x20 { FourHexDigits(c); }
  }

  lemma FourHexDigits(c: byte)
    requires c < 0x20
    ensures HexUnit(Hex(c, 4), 0) == Some(c as nat)
  {
    var h := Hex(c, 4);
    HexIs(c);
    hide Hex, HexDigit;
    forall k | 0 <= k < 4 ensures IsDigitIn(h[k], 16) {}
  }

  lemma HexIs(c: byte)
    requires c < 0x20
    ensures Hex(c, 4) == [HexDigit(0), HexDigit(0), HexDigit(c / 16), HexDigit(c % 16)]
  {
    hide HexDigit, Hex;
    HexStep(c, 3);
    HexStep(c / 16, 2);
    HexStep(0, 1);
    HexStep(0, 0);
    assert c / 16 / 16 == 0 && c / 16 % 16 == c / 16;
    assert Hex(0, 0) == [];
    assert [] + [HexDigit(0)] + [HexDigit(0)] + [HexDigit(c / 16)] + [HexDigit(c % 16)]
        == [HexDigit(0), HexDigit(0), HexDigit(c / 16), HexDigit(c % 16)];
  }

  lemma HexStep(n: nat, width: nat)
    ensures Hex(n, width + 1) == Hex(n / 16, width) + [HexDigit(n % 16)]
  {
    hide HexDigit;
  }

  lemma JoinsBehind(x: bytes, y: bytes, z: bytes)
    ensures x + (y + z) == x + y + z
  {
  }

  lemma {:induction false} ItemsJoin(a: seq<Item>, b: seq<Item>)
    requires ItemsOk(a) && ItemsOk(b)
    ensures ItemsOk(a + b)
    ensures ItemsText(a + b) == ItemsText(a) + ItemsText(b) && ItemsMeaning(a + b) == ItemsMeaning(a) + ItemsMeaning(b)
  {
    hide ItemOk, ItemText, ItemMeaning;
    if |a| == 0 {
      assert a + b == b;
    } else {
      assert (a + b)[0] == a[0] && (a + b)[1..] == a[1..] + b;
      ItemsJoin(a[1..], b);
      JoinsBehind(ItemText(a[0]), ItemsText(a[1..]), ItemsText(b));
      JoinsBehind(ItemMeaning(a[0]), ItemsMeaning(a[1..]), ItemsMeaning(b));
    }
  }

  lemma {:induction false} ItemsOfString(s: bytes)
    ensures ItemsOk(ItemsOf(s)) && ItemsText(ItemsOf(s)) == EscapeBytes(s) && ItemsMeaning(ItemsOf(s)) == s
  {
    hide ItemOk, ItemText, ItemMeaning, ItemOf, EscapeByte;
    if |s| > 0 {
      var t, c := s[..|s| - 1], s[|s| - 1];
      ItemsOfString(t);
      ItemOfByte(c);
      assert ItemsOf(s) == ItemsOf(t) + [ItemOf(c)];
      var one := [ItemOf(c)];
      assert ItemsText(one) == ItemText(one[0]) + ItemsText(one[1..]) && one[1..] == [];
      ItemsJoin(ItemsOf(t), one);
      assert t + [c] == s;
    }
  }

  /** A string that was written is read back unchanged, whatever follows it. */
  lemma EscapedReadsBack(s: bytes, rest: bytes)
    ensures ParseChars(Escaped(s) + rest, 1) == Some((s, |Escaped(s)|))
  {
    hide EscapeBytes, ItemsText, ItemsMeaning, ItemsOk, ParseChars, Stands, ItemsOf;
    ItemsOfString(s);
    var t := Escaped(s) + rest;
    assert t == [QUOTE] + ((EscapeBytes(s) + [QUOTE]) + rest);
    assert Stands(t, 0, t) by { WholeStands(t); }
    StandsSplit(t, 0, [QUOTE], (EscapeBytes(s) + [QUOTE]) + rest);
    StandsSplit(t, 1, EscapeBytes(s) + [QUOTE], rest);
    CharsStand(t, 1, ItemsOf(s));
  }

  lemma WholeStands(t: bytes)
    ensures Stands(t, 0, t)
  {
    assert t[0..|t|] == t;
  }

  lemma {:induction false} PlainEscapes(s: bytes)
    requires forall i :: 0 <= i < |s| ==> s[i] >= 0x20 && s[i] != QUOTE && s[i] != BACKSLASH
    ensures EscapeBytes(s) == s
  {
    hide EscapeByte;
    if |s| > 0 {
      PlainEscapes(s[..|s| - 1]);
      PlainEscape(s[|s| - 1]);
      assert s[..|s| - 1] + [s[|s| - 1]] == s;
    }
  }

  lemma PlainEscape(c: byte)
    requires c >= 0x20 && c != QUOTE && c != BACKSLASH
    ensures EscapeByte(c) == [c]
  {
    hide Hex;
  }

  // ----- Documents, indented by two blanks a level

  datatype Doc = DString(s: bytes) | DNat(n: nat) | DArray(items: seq<Doc>) | DObject(members: seq<DMember>)

  datatype DMember = DMember(key: bytes, value: Doc)

  function Pad(n: nat): (r: bytes)
    ensures |r| == n && AllSpaces(r)
  {
    seq(n, _ => 32)
  }

  const NEWLINE: bytes := [10]
  const COMMA_NEWLINE: bytes := [44, 10]

  function Pretty(d: Doc, n: nat): bytes
    decreases d, 0
  {
    match d
    case DString(s) => Escaped(s)
    case DNat(k) => Decimal(k)
    case DArray(items) => [91] + NEWLINE + PrettyItems(items, n + 2) + NEWLINE + Pad(n) + [93]
    case DObject(members) => [123] + NEWLINE + PrettyMembers(members, n + 2) + NEWLINE + Pad(n) + [125]
  }

  function PrettyItems(items: seq<Doc>, n: nat): bytes
    decreases items, 1
  {
    if |items| == 0 then []
    else if |items| == 1 then Pad(n) + Pretty(items[0], n)
    else Pad(n) + Pretty(items[0], n) + COMMA_NEWLINE + PrettyItems(items[1..], n)
  }

  function PrettyMember(m: DMember, n: nat): bytes
    decreases m, 1
  {
    Pad(n) + Escaped(m.key) + [58, 32] + Pretty(m.value, n)
  }

  function PrettyMembers(members: seq<DMember>, n: nat): bytes
    decreases members, 2
  {
    if |members| == 0 then []
    else if |members| == 1 then PrettyMember(members[0], n)
    else PrettyMember(members[0], n) + COMMA_NEWLINE + PrettyMembers(members[1..], n)
  }

  /** What a document means. */
  function DocValue(d: Doc): Value
    decreases d, 0
  {
    match d
    case DString(s) => String(s)
    case DNat(k) => Number(k as real)
    case DArray(items) => Array(DocValues(items))
    case DObject(members) => Object(DocMembers(members))
  }

  function DocValues(items: seq<Doc>): (r: seq<Value>)
    ensures |r| == |items|
    decreases items, 1
  {
    if |items| == 0 then [] else [DocValue(items[0])] + DocValues(items[1..])
  }

  function DocMembers(members: seq<DMember>): (r: seq<Member>)
    ensures |r| == |members|
    decreases members, 1
  {
    if |members| == 0 then [] else [Member(members[0].key, DocValue(members[0].value))] + DocMembers(members[1..])
  }

  function DocDepth(d: Doc): nat
    decreases d, 0
  {
    match d
    case DArray(items) => 1 + ItemsDepth(items)
    case DObject(members) => 1 + MembersDepth(members)
    case _ => 0
  }

  function ItemsDepth(items: seq<Doc>): nat
    decreases items, 1
  {
    if |items| == 0 then 0 else JsonGrammar.Max(DocDepth(items[0]), ItemsDepth(items[1..]))
  }

  function MembersDepth(members: seq<DMember>): nat
    decreases members, 1
  {
    if |members| == 0 then 0 else JsonGrammar.Max(DocDepth(members[0].value), MembersDepth(members[1..]))
  }

  /** Numbers that a double holds. */
  predicate Representable(d: Doc)
    decreases d
  {
    match d
    case DString(_) => true
    case DNat(k) => k < UINT64_RANGE
    case DArray(items) => forall i :: 0 <= i < |items| ==> Representable(items[i])
    case DObject(members) => forall i :: 0 <= i < |members| ==> Representable(members[i].value)
  }

  // ----- A document as a tree of the grammar

  function LineStart(n: nat): bytes { NEWLINE + Pad(n) }

  function DocTree(d: Doc, n: nat): Tree
    decreases d, 0
  {
    match d
    case DString(s) => Characters(ItemsOf(s))
    case DNat(k) => Digits(Numeral(false, Decimal(k), [], None))
    case DArray(items) =>
      if |items| == 0 then EmptyArray(NEWLINE + LineStart(n)) else ArrayOf(DocElements(items, n))
    case DObject(members) =>
      if |members| == 0 then EmptyObject(NEWLINE + LineStart(n)) else ObjectOf(DocEntries(members, n))
  }

  function DocElements(items: seq<Doc>, n: nat): Elements
    requires |items| > 0
    decreases items, 1
  {
    if |items| == 1 then LastElement(Padded(LineStart(n + 2), DocTree(items[0], n + 2), LineStart(n)))
    else NextElement(Padded(LineStart(n + 2), DocTree(items[0], n + 2), []), DocElements(items[1..], n))
  }

  function DocEntry(m: DMember, n: nat, after: bytes): Entry
    decreases m, 1
  {
    Entry(LineStart(n), ItemsOf(m.key), [], Padded([32], DocTree(m.value, n), after))
  }

  function DocEntries(members: seq<DMember>, n: nat): Entries
    requires |members| > 0
    decreases members, 2
  {
    if |members| == 1 then LastEntry(DocEntry(members[0], n + 2, LineStart(n)))
    else NextEntry(DocEntry(members[0], n + 2, []), DocEntries(members[1..], n))
  }

  ghost predicate TreeFits(d: Doc, n: nat) {
    var t := DocTree(d, n);
    TreeOk(t) && TreeText(t) == Pretty(d, n) && TreeMeaning(t) == DocValue(d) && Depth(t) == DocDepth(d)
  }

  lemma NumeralFits(k: nat)
    requires k < UINT64_RANGE
    ensures var n := Numeral(false, Decimal(k), [], None);
            NumeralOk(n) && NumeralText(n) == Decimal(k) && NumeralMeaning(n) == k as real
  {
    hide Decimal, Finite, AllDigits, FromParts;
    var n := Numeral(false, Decimal(k), [], None);
    assert AllDigits(Decimal(k)) && AllDigits([]) by { DigitsOfDecimal(k); }
    WholeMeaning(k);
    SmallIsFinite(k);
    assert [] + Decimal(k) + [] + [] == Decimal(k);
    assert Decimal(k)[0] == 48 ==> Decimal(k) == [48];
  }

  lemma DigitsOfDecimal(k: nat)
    ensures AllDigits(Decimal(k)) && AllDigits([])
  {
    hide Decimal;
  }

  lemma WholeMeaning(k: nat)
    requires AllDigits(Decimal(k)) && AllDigits([])
    ensures FromParts(false, Decimal(k), [], false, []) == k as real
  {
    hide Decimal;
    ValueOfDecimal(k);
    assert Power10(0) == 1.0 && Numerals.Value([], 10) == 0;
  }

  lemma SmallIsFinite(k: nat)
    requires k < UINT64_RANGE
    ensures Finite(k as real)
  {
    Power2Splits(970, 54);
    Power2Splits(64, 906);
    Power2Of64();
    PowerAtLeast(54);
    PowerAtLeast(906);
  }

  lemma {:induction false} Power2Splits(a: nat, b: nat)
    ensures Power2(a + b) == Power2(a) * Power2(b)
  {
    if b > 0 { Power2Splits(a, b - 1); }
  }

  lemma {:induction false} PowerAtLeast(n: nat)
    ensures Power2(n) >= 1.0
    ensures n > 0 ==> Power2(n) >= 2.0
  {
    if n > 0 { PowerAtLeast(n - 1); }
  }

  lemma Power2Of64()
    ensures Power2(64) == UINT64_RANGE as real
  {
    Power2Splits(32, 32);
    Power2Splits(16, 16);
    Power2Splits(8, 8);
    Power2Splits(4, 4);
    assert Power2(4) == 16.0 by { assert Power2(2) == 4.0; }
  }

  lemma {:induction false} DocFits(d: Doc, n: nat)
    requires Representable(d)
    ensures TreeFits(d, n)
    decreases d, 0
  {
    hide ItemsOf, ItemsOk, ItemsText, ItemsMeaning, EscapeBytes, NumeralOk, NumeralText, NumeralMeaning, Decimal;
    match d {
      case DString(s) => ItemsOfString(s);
      case DNat(k) => NumeralFits(k);
      case DArray(items) => ArrayFits(items, n);
      case DObject(members) => ObjectFits(members, n);
    }
  }

  lemma {:induction false} ArrayFits(items: seq<Doc>, n: nat)
    requires forall i :: 0 <= i < |items| ==> Representable(items[i])
    ensures TreeFits(DArray(items), n)
    decreases items, 2
  {
    hide Pad, ElementsOk, ElementsText, DocElements, DocValues, PrettyItems, ElementsMeaning, AllSpaces, ItemsDepth;
    GapIsSpaces(n);
    if |items| > 0 {
      ElementsFit(items, n);
      Bracketed(91, PrettyItems(items, n + 2), n, 93);
    } else {
      assert DocValues(items) == [] && PrettyItems(items, n + 2) == [] && ItemsDepth(items) == 0 by { NoDocs(n + 2); }
      Bracketed(91, [], n, 93);
    }
  }

  lemma {:induction false} ObjectFits(members: seq<DMember>, n: nat)
    requires forall i :: 0 <= i < |members| ==> Representable(members[i].value)
    ensures TreeFits(DObject(members), n)
    decreases members, 3
  {
    hide Pad, EntriesOk, EntriesText, DocEntries, DocMembers, PrettyMembers, EntriesMeaning, AllSpaces, MembersDepth;
    GapIsSpaces(n);
    if |members| > 0 {
      EntriesFit(members, n);
      Bracketed(123, PrettyMembers(members, n + 2), n, 125);
    } else {
      assert DocMembers(members) == [] && PrettyMembers(members, n + 2) == [] && MembersDepth(members) == 0
          by { NoDocs(n + 2); }
      Bracketed(123, [], n, 125);
    }
  }

  lemma NoDocs(n: nat)
    ensures DocValues([]) == [] && PrettyItems([], n) == [] && ItemsDepth([]) == 0
    ensures DocMembers([]) == [] && PrettyMembers([], n) == [] && MembersDepth([]) == 0
  {
  }

  lemma Bracketed(open: byte, inner: bytes, n: nat, close: byte)
    ensures [open] + (NEWLINE + inner + LineStart(n)) + [close] == [open] + NEWLINE + inner + NEWLINE + Pad(n) + [close]
    ensures [open] + (NEWLINE + LineStart(n)) + [close] == [open] + NEWLINE + [] + NEWLINE + Pad(n) + [close]
  {
    hide Pad;
  }

  lemma LineOf(n: nat, t: bytes, after: bytes)
    ensures LineStart(n) + t + after == NEWLINE + (Pad(n) + t) + after
  {
    hide Pad;
  }

  /** One more line before the others. */
  lemma LineBefore(m: bytes, rest: bytes, tail: bytes)
    ensures (NEWLINE + m + []) + [44] + (NEWLINE + rest + tail) == NEWLINE + (m + COMMA_NEWLINE + rest) + tail
  {
  }

  lemma GapIsSpaces(n: nat)
    ensures AllSpaces(LineStart(n)) && AllSpaces(NEWLINE + LineStart(n)) && AllSpaces([32]) && AllSpaces([])
  {
  }

  lemma {:induction false} ElementsFit(items: seq<Doc>, n: nat)
    requires |items| > 0 && forall i :: 0 <= i < |items| ==> Representable(items[i])
    ensures var es := DocElements(items, n);
            && ElementsOk(es) && ElementsText(es) == NEWLINE + PrettyItems(items, n + 2) + LineStart(n)
            && ElementsMeaning(es) == DocValues(items) && ElementsDepth(es) == ItemsDepth(items)
    decreases items, 1
  {
    hide DocTree, TreeText, TreeMeaning, TreeOk, Depth, Pretty, DocValue, DocDepth, LineStart, Representable, AllSpaces;
    GapIsSpaces(n);
    GapIsSpaces(n + 2);
    DocFits(items[0], n + 2);
    var t := DocTree(items[0], n + 2);
    assert Representable(items[0]);
    if |items| == 1 {
      assert items[1..] == [];
      LineOf(n + 2, TreeText(t), LineStart(n));
      assert ElementsMeaning(DocElements(items, n)) == [TreeMeaning(t)];
    } else {
      ElementsFit(items[1..], n);
      LineOf(n + 2, TreeText(t), []);
      LineBefore(Pad(n + 2) + TreeText(t), PrettyItems(items[1..], n + 2), LineStart(n));
    }
  }

  lemma {:induction false} EntryFits(m: DMember, n: nat, after: bytes)
    requires Representable(m.value) && AllSpaces(after)
    ensures var e := DocEntry(m, n, after);
            && EntryOk(e) && EntryText(e) == NEWLINE + PrettyMember(m, n) + after
            && EntryMeaning(e) == Member(m.key, DocValue(m.value)) && Depth(e.value.tree) == DocDepth(m.value)
    decreases m, 1
  {
    hide DocTree, TreeText, TreeMeaning, TreeOk, Depth, Pretty, DocValue, DocDepth, Pad, Representable, AllSpaces;
    hide ItemsOf, ItemsOk, ItemsText, ItemsMeaning, EscapeBytes;
    GapIsSpaces(n);
    DocFits(m.value, n);
    ItemsOfString(m.key);
    var k, t := EscapeBytes(m.key), TreeText(DocTree(m.value, n));
    assert LineStart(n) + [QUOTE] + k + [QUOTE] + [] + [58] + ([32] + t + after)
        == NEWLINE + (Pad(n) + ([QUOTE] + k + [QUOTE]) + [58, 32] + t) + after;
  }

  lemma {:induction false} EntriesFit(members: seq<DMember>, n: nat)
    requires |members| > 0 && forall i :: 0 <= i < |members| ==> Representable(members[i].value)
    ensures var es := DocEntries(members, n);
            && EntriesOk(es) && EntriesText(es) == NEWLINE + PrettyMembers(members, n + 2) + LineStart(n)
            && EntriesMeaning(es) == DocMembers(members) && EntriesDepth(es) == MembersDepth(members)
    decreases members, 2
  {
    hide DocEntry, EntryText, EntryMeaning, EntryOk, Depth, PrettyMember, DocValue, DocDepth, LineStart, Representable,
        AllSpaces;
    GapIsSpaces(n);
    assert Representable(members[0].value);
    if |members| == 1 {
      EntryFits(members[0], n + 2, LineStart(n));
      assert members[1..] == [];
      assert EntriesMeaning(DocEntries(members, n)) == [EntryMeaning(DocEntry(members[0], n + 2, LineStart(n)))];
    } else {
      EntryFits(members[0], n + 2, []);
      EntriesFit(members[1..], n);
      LineBefore(PrettyMember(members[0], n + 2), PrettyMembers(members[1..], n + 2), LineStart(n));
    }
  }

  /** A document that was written, with a final newline, is parsed as what it means. */
  lemma PrettyParses(d: Doc)
    requires Representable(d) && DocDepth(d) <= MAX_DEPTH && |Pretty(d, 0)| < INT_MAX
    ensures Parse(Pretty(d, 0) + NEWLINE) == Some(DocValue(d))
  {
    hide DocTree, TreeText, TreeMeaning, TreeOk, Depth, Pretty, DocValue, DocDepth, Parse;
    DocFits(d, 0);
    var p := Padded([], DocTree(d, 0), NEWLINE);
    assert [] + Pretty(d, 0) + NEWLINE == Pretty(d, 0) + NEWLINE;
    assert AllSpaces(NEWLINE) by { GapIsSpaces(0); }
    TextParses(Pretty(d, 0) + NEWLINE, p);
  }
}

/**
 * The JSON grammar (sections 2 to 7 of RFC 8259) as concrete syntax trees, each with its
 * text and its meaning. The parser accepts exactly the texts of trees at most 256 deep, and
 * gives back their meaning. White space is what C's isspace accepts.
 */
module JsonGrammar {
  import opened Bytes
  import opened Options
  import opened Numerals
  import opened JsonSpec

  /** A character of a string. */
  datatype Item =
    | Plain(c: byte)
    | Short(letter: byte)
    | Unit(digits: bytes)
    | Pair(high: bytes, low: bytes)

  datatype Exponent = Exponent(marker: byte, sign: bytes, digits: bytes)

  datatype Numeral = Numeral(negative: bool, whole: bytes, fraction: bytes, exponent: Option<Exponent>)

  datatype Tree =
    | TrueWord | FalseWord | NullWord
    | Digits(n: Numeral)
    | Characters(items: seq<Item>)
    | EmptyArray(gap: bytes)
    | ArrayOf(elements: Elements)
    | EmptyObject(gap: bytes)
    | ObjectOf(entries: Entries)

  /** A tree with white space around it. */
  datatype Padded = Padded(before: bytes, tree: Tree, after: bytes)

  datatype Elements = LastElement(e: Padded) | NextElement(e: Padded, rest: Elements)

  datatype Entry = Entry(before: bytes, key: seq<Item>, gap: bytes, value: Padded)

  datatype Entries = LastEntry(m: Entry) | NextEntry(m: Entry, rest: Entries)

  // ----- Well-formedness

  predicate AllSpaces(s: bytes) { forall i :: 0 <= i < |s| ==> IsSpace(s[i]) }

  predicate AllDigits(s: bytes) { forall i :: 0 <= i < |s| ==> IsDigitIn(s[i], 10) }

  predicate IsHexUnit(s: bytes) { |s| == 4 && HexUnit(s, 0).Some? }

  predicate ItemOk(item: Item) {
    match item
    case Plain(c) => c >= 0x20 && c != QUOTE && c != BACKSLASH
    case Short(letter) => ShortEscape(letter).Some?
    case Unit(digits) =>
      IsHexUnit(digits) && !IsHighSurrogate(HexUnit(digits, 0).value) && !IsLowSurrogate(HexUnit(digits, 0).value)
    case Pair(high, low) =>
      IsHexUnit(high) && IsHexUnit(low)
      && IsHighSurrogate(HexUnit(high, 0).value) && IsLowSurrogate(HexUnit(low, 0).value)
  }

  predicate ItemsOk(items: seq<Item>) { forall i :: 0 <= i < |items| ==> ItemOk(items[i]) }

  predicate ExponentOk(e: Exponent) {
    (e.marker == 101 || e.marker == 69) && (e.sign == [] || e.sign == [43] || e.sign == [45])
    && |e.digits| > 0 && AllDigits(e.digits)
  }

  predicate NumeralShape(n: Numeral) {
    && |n.whole| > 0 && AllDigits(n.whole) && (n.whole[0] == 48 ==> |n.whole| == 1)
    && AllDigits(n.fraction)
    && (n.exponent.Some? ==> ExponentOk(n.exponent.value))
  }

  /** A number that a double can hold. */
  predicate NumeralOk(n: Numeral) { NumeralShape(n) && Finite(NumeralMeaning(n)) }

  predicate TreeOk(t: Tree) {
    match t
    case Digits(n) => NumeralOk(n)
    case Characters(items) => ItemsOk(items)
    case EmptyArray(gap) => AllSpaces(gap)
    case ArrayOf(elements) => ElementsOk(elements)
    case EmptyObject(gap) => AllSpaces(gap)
    case ObjectOf(entries) => EntriesOk(entries)
    case _ => true
  }

  predicate PaddedOk(p: Padded) { AllSpaces(p.before) && TreeOk(p.tree) && AllSpaces(p.after) }

  predicate ElementsOk(es: Elements) { PaddedOk(es.e) && (es.NextElement? ==> ElementsOk(es.rest)) }

  predicate EntryOk(m: Entry) { AllSpaces(m.before) && ItemsOk(m.key) && AllSpaces(m.gap) && PaddedOk(m.value) }

  predicate EntriesOk(ms: Entries) { EntryOk(ms.m) && (ms.NextEntry? ==> EntriesOk(ms.rest)) }

  // ----- Text

  function ItemText(item: Item): bytes {
    match item
    case Plain(c) => [c]
    case Short(letter) => [BACKSLASH, letter]
    case Unit(digits) => [BACKSLASH, 117] + digits
    case Pair(high, low) => [BACKSLASH, 117] + high + [BACKSLASH, 117] + low
  }

  function ItemsText(items: seq<Item>): bytes {
    if |items| == 0 then [] else ItemText(items[0]) + ItemsText(items[1..])
  }

  function ExponentText(e: Option<Exponent>): bytes {
    if e.None? then [] else [e.value.marker] + e.value.sign + e.value.digits
  }

  function NumeralText(n: Numeral): bytes {
    (if n.negative then [45] else []) + n.whole + (if n.fraction == [] then [] else [46] + n.fraction)
    + ExponentText(n.exponent)
  }

  function TreeText(t: Tree): (r: bytes) {
    match t
    case TrueWord => TRUE_WORD
    case FalseWord => FALSE_WORD
    case NullWord => NULL_WORD
    case Digits(n) => NumeralText(n)
    case Characters(items) => [QUOTE] + ItemsText(items) + [QUOTE]
    case EmptyArray(gap) => [91] + gap + [93]
    case ArrayOf(elements) => [91] + ElementsText(elements) + [93]
    case EmptyObject(gap) => [123] + gap + [125]
    case ObjectOf(entries) => [123] + EntriesText(entries) + [125]
  }

  function PaddedText(p: Padded): bytes { p.before + TreeText(p.tree) + p.after }

  function ElementsText(es: Elements): bytes {
    match es
    case LastElement(e) => PaddedText(e)
    case NextElement(e, rest) => PaddedText(e) + [44] + ElementsText(rest)
  }

  function EntryText(m: Entry): bytes {
    m.before + [QUOTE] + ItemsText(m.key) + [QUOTE] + m.gap + [58] + PaddedText(m.value)
  }

  function EntriesText(ms: Entries): bytes {
    match ms
    case LastEntry(m) => EntryText(m)
    case NextEntry(m, rest) => EntryText(m) + [44] + EntriesText(rest)
  }

  // ----- Meaning

  function ItemMeaning(item: Item): bytes
    requires ItemOk(item)
  {
    match item
    case Plain(c) => [c]
    case Short(letter) => [ShortEscape(letter).value]
    case Unit(digits) => Utf8(HexUnit(digits, 0).value)
    case Pair(high, low) => Utf8(FromPair(HexUnit(high, 0).value, HexUnit(low, 0).value))
  }

  function ItemsMeaning(items: seq<Item>): bytes
    requires ItemsOk(items)
  {
    if |items| == 0 then [] else ItemMeaning(items[0]) + ItemsMeaning(items[1..])
  }

  function NumeralMeaning(n: Numeral): real
    requires AllDigits(n.whole) && AllDigits(n.fraction) && (n.exponent.Some? ==> AllDigits(n.exponent.value.digits))
  {
    FromParts(n.negative, n.whole, n.fraction, n.exponent.Some? && n.exponent.value.sign == [45],
              if n.exponent.Some? then n.exponent.value.digits else [])
  }

  function TreeMeaning(t: Tree): Value
    requires TreeOk(t)
  {
    match t
    case TrueWord => True
    case FalseWord => False
    case NullWord => Null
    case Digits(n) => Number(NumeralMeaning(n))
    case Characters(items) => String(ItemsMeaning(items))
    case EmptyArray(_) => Array([])
    case ArrayOf(elements) => Array(ElementsMeaning(elements))
    case EmptyObject(_) => Object([])
    case ObjectOf(entries) => Object(EntriesMeaning(entries))
  }

  function PaddedMeaning(p: Padded): Value
    requires PaddedOk(p)
  {
    TreeMeaning(p.tree)
  }

  function ElementsMeaning(es: Elements): seq<Value>
    requires ElementsOk(es)
  {
    [PaddedMeaning(es.e)] + if es.NextElement? then ElementsMeaning(es.rest) else []
  }

  function EntryMeaning(m: Entry): Member
    requires EntryOk(m)
  {
    Member(ItemsMeaning(m.key), PaddedMeaning(m.value))
  }

  function EntriesMeaning(ms: Entries): seq<Member>
    requires EntriesOk(ms)
  {
    [EntryMeaning(ms.m)] + if ms.NextEntry? then EntriesMeaning(ms.rest) else []
  }

  // ----- Depth

  function Max(a: nat, b: nat): nat { if a < b then b else a }

  /** How many arrays and objects are nested. */
  function Depth(t: Tree): nat {
    match t
    case EmptyArray(_) => 1
    case ArrayOf(elements) => 1 + ElementsDepth(elements)
    case EmptyObject(_) => 1
    case ObjectOf(entries) => 1 + EntriesDepth(entries)
    case _ => 0
  }

  function ElementsDepth(es: Elements): nat {
    Max(Depth(es.e.tree), if es.NextElement? then ElementsDepth(es.rest) else 0)
  }

  function EntriesDepth(ms: Entries): nat {
    Max(Depth(ms.m.value.tree), if ms.NextEntry? then EntriesDepth(ms.rest) else 0)
  }

  // ----- Where a text stands

  /** `t` stands in `s` at `i`. */
  predicate Stands(s: bytes, i: nat, t: bytes) { i + |t| <= |s| && s[i..i + |t|] == t }

  lemma StandsSplit(s: bytes, i: nat, a: bytes, b: bytes)
    ensures Stands(s, i, a + b) <==> Stands(s, i, a) && Stands(s, i + |a|, b)
  {
    if i + |a| + |b| <= |s| {
      assert s[i..i + |a + b|] == s[i..i + |a|] + s[i + |a|..i + |a| + |b|];
      assert Stands(s, i, a + b) ==> s[i..i + |a + b|][..|a|] == a && s[i..i + |a + b|][|a|..] == b;
    }
  }

  lemma {:induction false} SpacesStand(s: bytes, i: nat, gap: bytes)
    requires Stands(s, i, gap) && AllSpaces(gap)
    ensures SpacesEnd(s, i) == SpacesEnd(s, i + |gap|)
    decreases |gap|
  {
    if |gap| > 0 {
      assert s[i] == s[i..i + |gap|][0];
      assert s[i..i + |gap|][1..] == s[i + 1..i + |gap|];
      SpacesStand(s, i + 1, gap[1..]);
    }
  }

  /** No white space at `i`. */
  predicate Solid(s: bytes, i: nat) { i >= |s| || !IsSpace(s[i]) }

  lemma SpacesUpTo(s: bytes, i: nat, gap: bytes)
    requires Stands(s, i, gap) && AllSpaces(gap) && Solid(s, i + |gap|)
    ensures SpacesEnd(s, i) == i + |gap|
  {
    SpacesStand(s, i, gap);
  }

  /** What white space was skipped. */
  lemma {:induction false} SkippedSpaces(s: bytes, i: nat)
    requires i <= |s|
    ensures AllSpaces(s[i..SpacesEnd(s, i)]) && Solid(s, SpacesEnd(s, i))
    decreases |s| - i
  {
    if i < |s| && IsSpace(s[i]) { SkippedSpaces(s, i + 1); }
  }
}

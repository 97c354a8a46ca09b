/** The parser against the grammar: what it accepts, and what it makes of it. */
module JsonTheorems {
  import opened Bytes
  import opened Options
  import opened Numerals
  import opened JsonSpec
  import opened JsonGrammar

  // ----- Strings

  lemma HexUnitStands(s: bytes, i: nat, digits: bytes)
    requires IsHexUnit(digits) && Stands(s, i, digits)
    ensures HexUnit(s, i) == HexUnit(digits, 0)
  {
    forall k | 0 <= k < 4 ensures s[i + k] == digits[k] { assert s[i..i + 4][k] == s[i + k]; }
    forall k | i <= k < i + 4 ensures IsDigitIn(s[k], 16) { assert s[k] == digits[k - i]; }
    assert s[i] == digits[0] && s[i + 1] == digits[1] && s[i + 2] == digits[2] && s[i + 3] == digits[3];
  }

  lemma EscapeStands(s: bytes, i: nat, item: Item)
    requires ItemOk(item) && !item.Plain? && Stands(s, i, ItemText(item))
    ensures i < |s| && s[i] == BACKSLASH
    ensures ParseEscape(s, i + 1) == Some((ItemMeaning(item), i + |ItemText(item)|))
  {
    hide HexUnit, Utf8, FromPair;
    var t := ItemText(item);
    assert s[i] == s[i..i + |t|][0] && s[i + 1] == s[i..i + |t|][1];
    match item {
      case Short(_) =>
      case Unit(digits) =>
        UnitLength(digits);
        StandsSplit(s, i, [BACKSLASH, 117], digits);
        HexUnitStands(s, i + 2, digits);
      case Pair(high, low) =>
        UnitLength(high);
        UnitLength(low);
        assert t == [BACKSLASH, 117] + (high + ([BACKSLASH, 117] + low));
        StandsSplit(s, i, [BACKSLASH, 117], high + ([BACKSLASH, 117] + low));
        StandsSplit(s, i + 2, high, [BACKSLASH, 117] + low);
        StandsSplit(s, i + 6, [BACKSLASH, 117], low);
        assert s[i + 6] == s[i + 6..i + 8][0] && s[i + 7] == s[i + 6..i + 8][1];
        HexUnitStands(s, i + 2, high);
        HexUnitStands(s, i + 8, low);
    }
  }

  lemma UnitLength(digits: bytes)
    requires IsHexUnit(digits)
    ensures |digits| == 4
  {
  }

  /** A string is read back as what its characters stand for. */
  lemma {:induction false} CharsStand(s: bytes, i: nat, items: seq<Item>)
    requires ItemsOk(items) && Stands(s, i, ItemsText(items) + [QUOTE])
    ensures ParseChars(s, i) == Some((ItemsMeaning(items), i + |ItemsText(items)| + 1))
    decreases |items|
  {
    hide ParseEscape, ItemMeaning, ItemText, ItemOk, Stands;
    if |items| == 0 {
      assert [] + [QUOTE] == [QUOTE];
      StandsOne(s, i, QUOTE);
    } else {
      var item, rest := items[0], items[1..];
      var t := ItemText(item);
      assert ItemOk(item);
      assert ItemsText(items) + [QUOTE] == t + (ItemsText(rest) + [QUOTE]);
      StandsSplit(s, i, t, ItemsText(rest) + [QUOTE]);
      CharsStand(s, i + |t|, rest);
      if item.Plain? {
        PlainMeaning(item);
        StandsOne(s, i, item.c);
      } else {
        EscapeStands(s, i, item);
      }
    }
  }

  lemma PlainMeaning(item: Item)
    requires item.Plain? && ItemOk(item)
    ensures ItemMeaning(item) == ItemText(item) == [item.c]
    ensures item.c >= 0x20 && item.c != QUOTE && item.c != BACKSLASH
  {
  }

  /** The escape that was read. */
  lemma EscapeFound(s: bytes, i: nat) returns (item: Item)
    requires i < |s| && s[i] == BACKSLASH && ParseEscape(s, i + 1).Some?
    ensures ItemOk(item) && !item.Plain?
    ensures ParseEscape(s, i + 1) == Some((ItemMeaning(item), i + |ItemText(item)|))
    ensures Stands(s, i, ItemText(item))
  {
    hide Utf8, FromPair, HexUnit, ItemOk, ItemMeaning, ItemText, Stands;
    if ShortEscape(s[i + 1]).Some? {
      item := Short(s[i + 1]);
      ShortFound(s, i);
    } else if IsHighSurrogate(HexUnit(s, i + 2).value) {
      item := Pair(s[i + 2..i + 6], s[i + 8..i + 12]);
      PairFound(s, i);
    } else {
      item := Unit(s[i + 2..i + 6]);
      UnitFound(s, i);
    }
  }

  lemma ShortFound(s: bytes, i: nat)
    requires i + 1 < |s| && s[i] == BACKSLASH && ShortEscape(s[i + 1]).Some?
    ensures var item := Short(s[i + 1]);
            && ItemOk(item) && ItemMeaning(item) == [ShortEscape(s[i + 1]).value]
            && Stands(s, i, ItemText(item)) && |ItemText(item)| == 2
  {
    assert s[i..i + 2] == [BACKSLASH, s[i + 1]];
  }

  lemma UnitFound(s: bytes, i: nat)
    requires i + 1 < |s| && s[i] == BACKSLASH && s[i + 1] == 117 && HexUnit(s, i + 2).Some?
    requires !IsHighSurrogate(HexUnit(s, i + 2).value) && !IsLowSurrogate(HexUnit(s, i + 2).value)
    ensures i + 6 <= |s|
    ensures var item := Unit(s[i + 2..i + 6]);
            && ItemOk(item) && ItemMeaning(item) == Utf8(HexUnit(s, i + 2).value)
            && Stands(s, i, ItemText(item)) && |ItemText(item)| == 6
  {
    hide Utf8, HexUnit;
    HexUnitCut(s, i + 2);
    assert s[i..i + 6] == [BACKSLASH, 117] + s[i + 2..i + 6];
  }

  lemma PairFound(s: bytes, i: nat)
    requires i + 7 < |s| && s[i] == BACKSLASH && s[i + 1] == 117 && HexUnit(s, i + 2).Some?
    requires s[i + 6] == BACKSLASH && s[i + 7] == 117 && HexUnit(s, i + 8).Some?
    requires IsHighSurrogate(HexUnit(s, i + 2).value) && IsLowSurrogate(HexUnit(s, i + 8).value)
    ensures i + 12 <= |s|
    ensures var item := Pair(s[i + 2..i + 6], s[i + 8..i + 12]);
            && ItemOk(item) && ItemMeaning(item) == Utf8(FromPair(HexUnit(s, i + 2).value, HexUnit(s, i + 8).value))
            && Stands(s, i, ItemText(item)) && |ItemText(item)| == 12
  {
    hide Utf8, HexUnit, FromPair;
    HexUnitCut(s, i + 2);
    HexUnitCut(s, i + 8);
    assert s[i..i + 12] == s[i..i + 2] + s[i + 2..i + 6] + s[i + 6..i + 8] + s[i + 8..i + 12];
    assert s[i..i + 2] == [BACKSLASH, 117] == s[i + 6..i + 8];
  }

  lemma HexUnitCut(s: bytes, i: nat)
    requires HexUnit(s, i).Some?
    ensures i + 4 <= |s| && IsHexUnit(s[i..i + 4]) && HexUnit(s[i..i + 4], 0) == HexUnit(s, i)
  {
    var digits := s[i..i + 4];
    forall k | 0 <= k < 4 ensures IsDigitIn(digits[k], 16) { assert digits[k] == s[i + k]; }
  }

  lemma {:induction false} CharsFound(s: bytes, i: nat) returns (items: seq<Item>)
    requires i <= |s| && ParseChars(s, i).Some?
    ensures ItemsOk(items) && ItemsMeaning(items) == ParseChars(s, i).value.0
    ensures ParseChars(s, i).value.1 == i + |ItemsText(items)| + 1
    ensures Stands(s, i, ItemsText(items) + [QUOTE])
    decreases |s| - i
  {
    hide ParseEscape, ItemMeaning, ItemsMeaning, ItemsText, ItemOk, ItemsOk, Stands;
    if s[i] == QUOTE {
      items := [];
      NoItems();
      StandsOne(s, i, QUOTE);
      assert [] + [QUOTE] == [QUOTE];
    } else {
      var item;
      if s[i] == BACKSLASH {
        item := EscapeFound(s, i);
      } else {
        item := Plain(s[i]);
        StandsOne(s, i, s[i]);
        assert ItemOk(item) by { PlainOk(s[i]); }
        PlainMeaning(item);
      }
      var rest := CharsFound(s, i + |ItemText(item)|);
      items := [item] + rest;
      ItemsGrow(item, rest);
      StandsSplit(s, i, ItemText(item), ItemsText(rest) + [QUOTE]);
      assert ItemsText(items) + [QUOTE] == ItemText(item) + (ItemsText(rest) + [QUOTE]);
    }
  }

  lemma NoItems()
    ensures ItemsOk([]) && ItemsText([]) == [] && ItemsMeaning([]) == []
  {
  }

  lemma PlainOk(c: byte)
    requires c >= 0x20 && c != QUOTE && c != BACKSLASH
    ensures ItemOk(Plain(c))
  {
  }

  lemma ItemsGrow(item: Item, rest: seq<Item>)
    requires ItemOk(item) && ItemsOk(rest)
    ensures ItemsOk([item] + rest)
    ensures ItemsText([item] + rest) == ItemText(item) + ItemsText(rest)
    ensures ItemsMeaning([item] + rest) == ItemMeaning(item) + ItemsMeaning(rest)
  {
    hide ItemOk, ItemMeaning, ItemText;
    assert ([item] + rest)[1..] == rest;
  }

  // ----- Numbers

  /** The character at `e` would carry a number on. */
  predicate Continues(s: bytes, e: nat) { DigitAt(s, e) || ByteAt(s, e, 46) || ExponentAt(s, e) }

  lemma DigitsStand(s: bytes, i: nat, d: bytes)
    requires Stands(s, i, d) && AllDigits(d) && !DigitAt(s, i + |d|)
    ensures DigitsEnd(s, i, 10) == i + |d|
    ensures |d| > 0 ==> DigitAt(s, i)
  {
    forall k | i <= k < i + |d| ensures IsDigitIn(s[k], 10) { assert s[k] == s[i..i + |d|][k - i]; }
    DigitsEndIs(s, i, 10, i + |d|);
  }

  /** The text of a numeral, and where its parts stand. */
  ghost predicate PartsStand(s: bytes, i: nat, n: Numeral) {
    var j := if n.negative then i + 1 else i;
    var k := j + |n.whole|;
    var m := if n.fraction == [] then k else k + 1 + |n.fraction|;
    && (if n.negative then ByteAt(s, i, 45) else !ByteAt(s, i, 45))
    && Stands(s, j, n.whole)
    && (n.fraction != [] ==> ByteAt(s, k, 46) && Stands(s, k + 1, n.fraction))
    && (n.exponent.Some? ==>
          && ByteAt(s, m, n.exponent.value.marker) && Stands(s, m + 1, n.exponent.value.sign)
          && Stands(s, m + 1 + |n.exponent.value.sign|, n.exponent.value.digits))
    && i + |NumeralText(n)| == m + (if n.exponent.None? then 0
                                    else 1 + |n.exponent.value.sign| + |n.exponent.value.digits|)
  }

  lemma StandsOne(s: bytes, i: nat, c: byte)
    ensures Stands(s, i, [c]) <==> ByteAt(s, i, c)
  {
    if i < |s| { assert s[i..i + 1] == [s[i]]; }
  }

  lemma SplitNumeral(s: bytes, i: nat, n: Numeral)
    requires NumeralShape(n)
    ensures Stands(s, i, NumeralText(n)) <==> PartsStand(s, i, n)
  {
    hide Stands, ExponentText;
    assert n.exponent.None? ==> ExponentText(n.exponent) == [] by { NoExponentText(n.exponent); }
    var a := if n.negative then [45] else [];
    var c := if n.fraction == [] then [] else [46] + n.fraction;
    var d := ExponentText(n.exponent);
    var j := i + |a|;
    var k := j + |n.whole|;
    var m := k + |c|;
    assert NumeralText(n) == a + (n.whole + (c + d));
    StandsSplit(s, i, a, n.whole + (c + d));
    StandsSplit(s, j, n.whole, c + d);
    StandsSplit(s, k, c, d);
    StandsOne(s, i, 45);
    StandsSplit(s, k, [46], n.fraction);
    StandsOne(s, k, 46);
    if n.exponent.Some? { SplitExponent(s, m, n.exponent.value); }
    EmptyStands(s, i);
    EmptyStands(s, k);
    EmptyStands(s, m);
    Within(s, k + 1, n.fraction);
    if Stands(s, j, n.whole) { FirstOfWhole(s, j, n.whole); }
  }

  lemma NoExponentText(e: Option<Exponent>)
    ensures e.None? ==> ExponentText(e) == []
  {
  }

  lemma SplitExponent(s: bytes, m: nat, e: Exponent)
    ensures Stands(s, m, ExponentText(Some(e)))
       <==> ByteAt(s, m, e.marker) && Stands(s, m + 1, e.sign) && Stands(s, m + 1 + |e.sign|, e.digits)
    ensures |ExponentText(Some(e))| == 1 + |e.sign| + |e.digits|
  {
    hide Stands;
    assert ExponentText(Some(e)) == [e.marker] + (e.sign + e.digits);
    StandsSplit(s, m, [e.marker], e.sign + e.digits);
    StandsOne(s, m, e.marker);
    StandsSplit(s, m + 1, e.sign, e.digits);
  }

  lemma FirstOfWhole(s: bytes, j: nat, whole: bytes)
    requires |whole| > 0 && AllDigits(whole) && Stands(s, j, whole)
    ensures !ByteAt(s, j, 45) && j + |whole| <= |s|
  {
    assert s[j] == s[j..j + |whole|][0];
  }

  lemma Within(s: bytes, i: nat, t: bytes)
    ensures Stands(s, i, t) ==> i + |t| <= |s|
  {
  }

  lemma EmptyStands(s: bytes, i: nat)
    ensures Stands(s, i, []) <==> i <= |s|
  {
  }

  /** Where the parts of a numeral end. */
  lemma PartsEnd(s: bytes, i: nat, n: Numeral)
    requires NumeralShape(n) && PartsStand(s, i, n) && !Continues(s, i + |NumeralText(n)|)
    ensures var j := if n.negative then i + 1 else i;
            var k := j + |n.whole|;
            var m := if n.fraction == [] then k else k + 1 + |n.fraction|;
            && WholeStart(s, i) == j && WholeEnd(s, j) == Some(k) && DigitsEnd(s, j, 10) == k
            && FractionEnd(s, k) == Some(m) && (n.fraction != [] ==> ByteAt(s, k, 46) && DigitsEnd(s, k + 1, 10) == m)
            && (n.fraction == [] ==> !ByteAt(s, k, 46))
            && ExponentEnd(s, m) == Some(i + |NumeralText(n)|)
            && (ExponentAt(s, m) <==> n.exponent.Some?)
            && (n.exponent.Some? ==>
                  && ExponentStart(s, m) == m + 1 + |n.exponent.value.sign|
                  && (ByteAt(s, m + 1, 45) <==> n.exponent.value.sign == [45])
                  && DigitsEnd(s, ExponentStart(s, m), 10) == i + |NumeralText(n)|)
  {
    hide NumeralText, DigitsEnd, Stands, ExponentStart, FractionEnd, ExponentEnd, WholeEnd, AllDigits, ExponentOk;
    var j := if n.negative then i + 1 else i;
    var k := j + |n.whole|;
    var m := if n.fraction == [] then k else k + 1 + |n.fraction|;
    if n.exponent.Some? {
      SignStands(s, m, n.exponent.value);
      ExponentStands(s, m, n.exponent.value);
    } else {
      Within(s, j, n.whole);
      Within(s, k + 1, n.fraction);
      NoExponent(s, m);
    }
    if n.fraction != [] {
      FractionStands(s, k, n.fraction);
    } else {
      NoFraction(s, k);
    }
    WholeStands(s, j, n.whole);
  }

  lemma WholeStands(s: bytes, j: nat, whole: bytes)
    requires |whole| > 0 && AllDigits(whole) && (whole[0] == 48 ==> |whole| == 1)
    requires Stands(s, j, whole) && !DigitAt(s, j + |whole|)
    ensures WholeEnd(s, j) == Some(j + |whole|) && DigitsEnd(s, j, 10) == j + |whole|
  {
    hide DigitsEnd, Stands;
    DigitsStand(s, j, whole);
    FirstDigit(s, j, whole);
  }

  lemma NoFraction(s: bytes, k: nat)
    requires k <= |s| && !ByteAt(s, k, 46)
    ensures FractionEnd(s, k) == Some(k)
  {
  }

  lemma NoExponent(s: bytes, m: nat)
    requires m <= |s| && !ExponentAt(s, m)
    ensures ExponentEnd(s, m) == Some(m)
  {
  }

  lemma FractionStands(s: bytes, k: nat, fraction: bytes)
    requires fraction != [] && AllDigits(fraction) && ByteAt(s, k, 46)
    requires Stands(s, k + 1, fraction) && !DigitAt(s, k + 1 + |fraction|)
    ensures FractionEnd(s, k) == Some(k + 1 + |fraction|) && DigitsEnd(s, k + 1, 10) == k + 1 + |fraction|
  {
    hide DigitsEnd, Stands;
    DigitsStand(s, k + 1, fraction);
  }

  lemma ExponentStands(s: bytes, m: nat, e: Exponent)
    requires ExponentOk(e) && ByteAt(s, m, e.marker) && ExponentStart(s, m) == m + 1 + |e.sign|
    requires Stands(s, m + 1 + |e.sign|, e.digits) && !DigitAt(s, m + 1 + |e.sign| + |e.digits|)
    ensures ExponentEnd(s, m) == Some(m + 1 + |e.sign| + |e.digits|) && ExponentAt(s, m)
    ensures DigitsEnd(s, ExponentStart(s, m), 10) == m + 1 + |e.sign| + |e.digits|
  {
    hide DigitsEnd, Stands, ExponentStart;
    DigitsStand(s, m + 1 + |e.sign|, e.digits);
  }

  lemma FirstDigit(s: bytes, j: nat, whole: bytes)
    requires |whole| > 0 && Stands(s, j, whole)
    ensures j < |s| && s[j] == whole[0]
  {
    assert s[j] == s[j..j + |whole|][0];
  }

  lemma SignStands(s: bytes, m: nat, e: Exponent)
    requires ExponentOk(e) && ByteAt(s, m, e.marker)
    requires Stands(s, m + 1, e.sign) && Stands(s, m + 1 + |e.sign|, e.digits)
    ensures ExponentStart(s, m) == m + 1 + |e.sign|
    ensures ByteAt(s, m + 1, 45) <==> e.sign == [45]
    ensures !DigitAt(s, m) && !ByteAt(s, m, 46)
  {
    FirstDigit(s, m + 1 + |e.sign|, e.digits);
    if e.sign != [] { FirstDigit(s, m + 1, e.sign); }
  }

  lemma StrtodOfNumeral(n: Numeral)
    requires NumeralShape(n)
    ensures Strtod(NumeralText(n)) == NumeralMeaning(n)
  {
    hide FromParts, DigitsEnd, NumeralText, WholeStart, FractionEnd, WholeEnd, ExponentEnd, ExponentStart, ExponentOk,
        AllDigits;
    hide PartsStand, ExponentAt, Continues, Strtod, NumeralShape, NumeralMeaning;
    var t := NumeralText(n);
    assert Stands(t, 0, t) by { assert t[..|t|] == t; }
    SplitNumeral(t, 0, n);
    assert !Continues(t, |t|) by { NothingContinues(t); }
    PartsEnd(t, 0, n);
    PartsAre(t, n);
    StrtodParts(t, n);
  }

  lemma NothingContinues(t: bytes)
    ensures !Continues(t, |t|)
  {
  }

  lemma PartsAre(t: bytes, n: Numeral)
    requires NumeralShape(n) && PartsStand(t, 0, n) && |t| == |NumeralText(n)|
    ensures var j := if n.negative then 1 else 0;
            var k := j + |n.whole|;
            var m := if n.fraction == [] then k else k + 1 + |n.fraction|;
            && m <= |t| && t[j..k] == n.whole && (n.fraction != [] ==> t[k + 1..m] == n.fraction)
            && (n.exponent.Some? ==>
                  var x := m + 1 + |n.exponent.value.sign|;
                  x <= |t| && t[x..|t|] == n.exponent.value.digits)
  {
    hide NumeralText, AllDigits;
  }

  lemma StrtodParts(t: bytes, n: Numeral)
    requires NumeralShape(n)
    requires var j := if n.negative then 1 else 0;
             var k := j + |n.whole|;
             var m := if n.fraction == [] then k else k + 1 + |n.fraction|;
             && WholeStart(t, 0) == j && DigitsEnd(t, j, 10) == k <= m <= |t|
             && (n.fraction != [] ==> ByteAt(t, k, 46) && DigitsEnd(t, k + 1, 10) == m && t[k + 1..m] == n.fraction)
             && (n.fraction == [] ==> !ByteAt(t, k, 46))
             && (ExponentAt(t, m) <==> n.exponent.Some?) && t[j..k] == n.whole
             && (n.exponent.Some? ==>
                   var x := m + 1 + |n.exponent.value.sign|;
                   && x <= |t| && ExponentStart(t, m) == x && DigitsEnd(t, x, 10) == |t|
                       && t[x..|t|] == n.exponent.value.digits
                   && (ByteAt(t, m + 1, 45) <==> n.exponent.value.sign == [45]))
    ensures Strtod(t) == NumeralMeaning(n)
  {
    hide FromParts, DigitsEnd, WholeStart, ExponentStart, ExponentAt;
  }

  /** A numeral is read as the number it means. */
  lemma NumeralStands(s: bytes, i: nat, n: Numeral)
    requires NumeralOk(n) && Stands(s, i, NumeralText(n)) && !Continues(s, i + |NumeralText(n)|)
    ensures ParseNumber(s, i) == Some((Number(NumeralMeaning(n)), i + |NumeralText(n)|))
    ensures |NumeralText(n)| > 0 && (s[i] == 45 || IsDigit(s[i]))
  {
    hide NumeralText, NumeralMeaning, Strtod, DigitsEnd, Finite;
    SplitNumeral(s, i, n);
    PartsEnd(s, i, n);
    StrtodOfNumeral(n);
  }

  lemma NumeralFound(s: bytes, i: nat) returns (n: Numeral)
    requires ParseNumber(s, i).Some?
    ensures NumeralOk(n) && Stands(s, i, NumeralText(n))
    ensures ParseNumber(s, i) == Some((Number(NumeralMeaning(n)), i + |NumeralText(n)|))
  {
    hide NumeralText, NumeralMeaning, NumeralShape, Strtod, DigitsEnd, Finite, WholeEnd, FractionEnd, ExponentEnd,
        ExponentFound;
    var j := WholeStart(s, i);
    var k := WholeEnd(s, j).value;
    var m := FractionEnd(s, k).value;
    var e := ExponentEnd(s, m).value;
    n := Numeral(j > i, s[j..k], if m > k then s[k + 1..m] else [], ExponentFound(s, m));
    NumeralCut(s, i, n, j, k, m, e);
    StrtodOfNumeral(n);
  }

  lemma WholeDigits(s: bytes, j: nat)
    requires WholeEnd(s, j).Some?
    ensures AllDigits(s[j..WholeEnd(s, j).value]) && (s[j] == 48 ==> WholeEnd(s, j).value == j + 1)
  {
  }

  function ExponentFound(s: bytes, m: nat): Option<Exponent>
    requires m <= |s| && ExponentEnd(s, m).Some?
  {
    if !ExponentAt(s, m) then None
    else
      var x := ExponentStart(s, m);
      Some(Exponent(s[m], s[m + 1..x], s[x..ExponentEnd(s, m).value]))
  }

  lemma NumeralCut(s: bytes, i: nat, n: Numeral, j: nat, k: nat, m: nat, e: nat)
    requires NumberEnd(s, i) == Some(e)
    requires j == WholeStart(s, i) && WholeEnd(s, j) == Some(k) && FractionEnd(s, k) == Some(m)
    requires n == Numeral(j > i, s[j..k], if m > k then s[k + 1..m] else [], ExponentFound(s, m))
    ensures NumeralShape(n) && NumeralText(n) == s[i..e]
  {
    hide ExponentFound, ExponentText, NumeralText, ExponentOk, DigitsEnd, WholeEnd, FractionEnd, ExponentEnd;
    WholeDigits(s, j);
    FractionCut(s, k);
    ExponentCut(s, m);
    WholeCut(s, i, j, k);
    CutInFour(s, i, j, k, m, e);
    TextOfParts(n, s[i..j], s[k..m], s[m..e]);
  }

  lemma TextOfParts(n: Numeral, sign: bytes, fraction: bytes, exponent: bytes)
    requires sign == if n.negative then [45] else []
    requires fraction == if n.fraction == [] then [] else [46] + n.fraction
    requires exponent == ExponentText(n.exponent)
    ensures NumeralText(n) == sign + n.whole + fraction + exponent
  {
    hide ExponentText;
  }

  lemma CutInFour(s: bytes, i: nat, j: nat, k: nat, m: nat, e: nat)
    requires i <= j <= k <= m <= e <= |s|
    ensures s[i..e] == s[i..j] + s[j..k] + s[k..m] + s[m..e]
  {
    assert s[i..k] == s[i..j] + s[j..k];
    assert s[i..m] == s[i..k] + s[k..m];
    assert s[i..e] == s[i..m] + s[m..e];
  }

  lemma WholeCut(s: bytes, i: nat, j: nat, k: nat)
    requires j == WholeStart(s, i) && WholeEnd(s, j) == Some(k)
    ensures i <= j < k <= |s| && s[i..j] == (if j > i then [45] else [])
    ensures s[j..k][0] == s[j]
  {
  }

  lemma FractionCut(s: bytes, k: nat)
    requires k <= |s| && FractionEnd(s, k).Some?
    ensures var m := FractionEnd(s, k).value;
            && (m > k ==> m > k + 1 && s[k..m] == [46] + s[k + 1..m] && AllDigits(s[k + 1..m]))
            && (m == k ==> s[k..m] == [])
  {
    if FractionEnd(s, k).value > k {
      assert IsDigitIn(s[k + 1], 10);
    }
  }

  lemma ExponentCut(s: bytes, m: nat)
    requires m <= |s| && ExponentEnd(s, m).Some?
    ensures ExponentText(ExponentFound(s, m)) == s[m..ExponentEnd(s, m).value]
    ensures ExponentFound(s, m).Some? ==> ExponentOk(ExponentFound(s, m).value)
  {
    if ExponentAt(s, m) {
      var x, e := ExponentStart(s, m), ExponentEnd(s, m).value;
      assert DigitAt(s, x) && e == DigitsEnd(s, x, 10);
      assert s[m..e] == [s[m]] + s[m + 1..x] + s[x..e];
      assert x == m + 2 ==> s[m + 1..x] == [s[m + 1]];
    }
  }

  // ----- Every tree's text is read as what it means

  /** What can follow a value with its white space: the end, a comma, or a closing bracket. */
  predicate Closes(s: bytes, e: nat) { e >= |s| || s[e] == 44 || s[e] == 93 || s[e] == 125 }

  lemma ClosesCleanly(s: bytes, e: nat)
    requires Closes(s, e)
    ensures Solid(s, e) && !Continues(s, e)
  {
  }

  lemma WordStands(s: bytes, i: nat, word: bytes)
    requires |word| > 0 && Stands(s, i, word)
    ensures i < |s| && s[i] == word[0]
  {
    FirstDigit(s, i, word);
  }

  /** The alternative a value is read by, from its first character. */
  lemma TreeStarts(s: bytes, j: nat, t: Tree)
    requires TreeOk(t) && Stands(s, j, TreeText(t))
    ensures j < |s| && !IsSpace(s[j]) && s[j] != 93 && s[j] != 125
    ensures s[j] == match t
                    case TrueWord => 116
                    case FalseWord => 102
                    case NullWord => 110
                    case Digits(_) => s[j]
                    case Characters(_) => QUOTE
                    case EmptyArray(_) => 91
                    case ArrayOf(_) => 91
                    case EmptyObject(_) => 123
                    case ObjectOf(_) => 123
    ensures t.Digits? ==> s[j] == 45 || IsDigit(s[j])
    ensures |TreeText(t)| > 0
  {
    hide ItemsText, ElementsText, EntriesText, NumeralMeaning, Finite;
    if t.Digits? {
      SplitNumeral(s, j, t.n);
      FirstDigit(s, if t.n.negative then j + 1 else j, t.n.whole);
    } else {
      assert |TreeText(t)| > 0;
      WordStands(s, j, TreeText(t));
    }
  }

  // One step of the parser on each kind of value.

  lemma BareArray(s: bytes, j: nat, depth: nat)
    requires ByteAt(s, j, 91)
    ensures depth >= MAX_DEPTH ==> ParseBare(s, j, depth).None?
    ensures depth < MAX_DEPTH ==>
              var k := SpacesEnd(s, j + 1);
              if ByteAt(s, k, 93) then ParseBare(s, j, depth) == Some((Array([]), k + 1))
              else var r := ParseElements(s, j + 1, depth + 1);
                   if r.None? then ParseBare(s, j, depth).None?
                   else ParseBare(s, j, depth) == Some((Array(r.value.0), r.value.1))
  {
    hide SpacesEnd, ParseElements;
    if depth < MAX_DEPTH { ElementsAfterSpaces(s, j + 1, depth + 1); }
  }

  lemma BareObject(s: bytes, j: nat, depth: nat)
    requires ByteAt(s, j, 123)
    ensures depth >= MAX_DEPTH ==> ParseBare(s, j, depth).None?
    ensures depth < MAX_DEPTH ==>
              var k := SpacesEnd(s, j + 1);
              if ByteAt(s, k, 125) then ParseBare(s, j, depth) == Some((Object([]), k + 1))
              else var r := ParseMembers(s, j + 1, depth + 1);
                   if r.None? then ParseBare(s, j, depth).None?
                   else ParseBare(s, j, depth) == Some((Object(r.value.0), r.value.1))
  {
    hide SpacesEnd, ParseMembers;
    if depth < MAX_DEPTH { EntriesAfterSpaces(s, j + 1, depth + 1); }
  }

  lemma BareText(s: bytes, j: nat, depth: nat)
    requires ByteAt(s, j, QUOTE)
    ensures var r := ParseChars(s, j + 1);
            if r.None? then ParseBare(s, j, depth).None?
            else ParseBare(s, j, depth) == Some((String(r.value.0), r.value.1))
  {
    hide ParseChars;
  }

  lemma BareNumber(s: bytes, j: nat, depth: nat)
    requires ByteAt(s, j, 45) || DigitAt(s, j)
    ensures ParseBare(s, j, depth) == ParseNumber(s, j)
  {
    hide ParseNumber;
  }

  lemma BareWord(s: bytes, j: nat, depth: nat)
    requires j < |s| && s[j] != 123 && s[j] != 91 && s[j] != QUOTE && s[j] != 45 && !IsDigit(s[j])
    ensures ParseBare(s, j, depth)
         == if Stands(s, j, TRUE_WORD) then Some((True, j + 4))
            else if Stands(s, j, FALSE_WORD) then Some((False, j + 5))
            else if Stands(s, j, NULL_WORD) then Some((Null, j + 4))
            else None
  {
    FirstOfWord(s, j, TRUE_WORD);
    FirstOfWord(s, j, FALSE_WORD);
    FirstOfWord(s, j, NULL_WORD);
  }

  lemma FirstOfWord(s: bytes, j: nat, word: bytes)
    requires |word| > 0
    ensures Stands(s, j, word) ==> ByteAt(s, j, word[0])
  {
    if Stands(s, j, word) { FirstDigit(s, j, word); }
  }

  lemma {:induction false} TreeStands(s: bytes, j: nat, t: Tree, depth: nat)
    requires TreeOk(t) && Stands(s, j, TreeText(t)) && depth + Depth(t) <= MAX_DEPTH
    requires !Continues(s, j + |TreeText(t)|)
    ensures ParseBare(s, j, depth) == Some((TreeMeaning(t), j + |TreeText(t)|))
    decreases t, 0
  {
    hide ItemsText, ElementsText, EntriesText, NumeralText, NumeralMeaning, Finite, ParseChars, ParseNumber, SpacesEnd;
    hide Continues, NumeralOk, ItemsOk, ElementsOk, EntriesOk, ParseElements, ParseMembers, ParseBare, Stands;
    TreeStarts(s, j, t);
    match t {
      case TrueWord => BareWord(s, j, depth);
      case FalseWord => BareWord(s, j, depth); FirstOfWord(s, j, TRUE_WORD);
      case NullWord => BareWord(s, j, depth); FirstOfWord(s, j, TRUE_WORD); FirstOfWord(s, j, FALSE_WORD);
      case Digits(n) =>
        NumeralStands(s, j, n);
        BareNumber(s, j, depth);
      case Characters(items) =>
        assert TreeText(t) == [QUOTE] + (ItemsText(items) + [QUOTE]);
        StandsSplit(s, j, [QUOTE], ItemsText(items) + [QUOTE]);
        CharsStand(s, j + 1, items);
        BareText(s, j, depth);
      case EmptyArray(gap) =>
        EmptyStandsIn(s, j, 91, gap, 93);
        BareArray(s, j, depth);
      case EmptyObject(gap) =>
        EmptyStandsIn(s, j, 123, gap, 125);
        BareObject(s, j, depth);
      case ArrayOf(elements) =>
        assert TreeText(t) == [91] + (ElementsText(elements) + [93]);
        StandsSplit(s, j, [91], ElementsText(elements) + [93]);
        ElementsStand(s, j + 1, elements, depth + 1);
        ElementsStart(s, j + 1, elements);
        BareArray(s, j, depth);
      case ObjectOf(entries) =>
        assert TreeText(t) == [123] + (EntriesText(entries) + [125]);
        StandsSplit(s, j, [123], EntriesText(entries) + [125]);
        EntriesStand(s, j + 1, entries, depth + 1);
        BareObject(s, j, depth);
    }
  }

  lemma EmptyStandsIn(s: bytes, j: nat, open: byte, gap: bytes, close: byte)
    requires AllSpaces(gap) && Stands(s, j, [open] + gap + [close]) && !IsSpace(close)
    ensures SpacesEnd(s, j + 1) == j + 1 + |gap| && ByteAt(s, j + 1 + |gap|, close)
  {
    assert [open] + gap + [close] == [open] + (gap + [close]);
    StandsSplit(s, j, [open], gap + [close]);
    StandsSplit(s, j + 1, gap, [close]);
    StandsOne(s, j + 1 + |gap|, close);
    SpacesUpTo(s, j + 1, gap);
  }

  lemma {:induction false} PaddedStands(s: bytes, i: nat, p: Padded, depth: nat)
    requires PaddedOk(p) && Stands(s, i, PaddedText(p)) && depth + Depth(p.tree) <= MAX_DEPTH
    requires Closes(s, i + |PaddedText(p)|)
    ensures ParseValue(s, i, depth) == Some((PaddedMeaning(p), i + |PaddedText(p)|))
    decreases p, 1
  {
    hide TreeText, TreeMeaning, TreeOk, ParseBare, SpacesEnd, Stands, Closes;
    var t := TreeText(p.tree);
    var j := i + |p.before|;
    var e := j + |t|;
    assert PaddedText(p) == p.before + (t + p.after);
    StandsSplit(s, i, p.before, t + p.after);
    StandsSplit(s, j, t, p.after);
    ClosesCleanly(s, i + |PaddedText(p)|);
    TreeStarts(s, j, p.tree);
    SpacesUpTo(s, i, p.before);
    SpacesUpTo(s, e, p.after);
    if p.after != [] { SpaceEnds(s, e, p.after); }
    TreeStands(s, j, p.tree, depth);
  }

  lemma SpaceEnds(s: bytes, e: nat, gap: bytes)
    requires gap != [] && AllSpaces(gap) && Stands(s, e, gap)
    ensures !Continues(s, e)
  {
    FirstDigit(s, e, gap);
    assert IsSpace(gap[0]);
  }

  lemma {:induction false} ElementsStand(s: bytes, i: nat, es: Elements, depth: nat)
    requires ElementsOk(es) && Stands(s, i, ElementsText(es) + [93]) && depth + ElementsDepth(es) <= MAX_DEPTH
    ensures ParseElements(s, i, depth) == Some((ElementsMeaning(es), i + |ElementsText(es)| + 1))
    decreases es, 2
  {
    hide PaddedText, PaddedMeaning, PaddedOk, ParseValue, Stands, Depth;
    var t := PaddedText(es.e);
    if es.LastElement? {
      StandsSplit(s, i, t, [93]);
      StandsOne(s, i + |t|, 93);
      PaddedStands(s, i, es.e, depth);
      assert ElementsMeaning(es) == [PaddedMeaning(es.e)];
    } else {
      assert ElementsText(es) + [93] == t + ([44] + (ElementsText(es.rest) + [93]));
      StandsSplit(s, i, t, [44] + (ElementsText(es.rest) + [93]));
      StandsSplit(s, i + |t|, [44], ElementsText(es.rest) + [93]);
      StandsOne(s, i + |t|, 44);
      PaddedStands(s, i, es.e, depth);
      ElementsStand(s, i + |t| + 1, es.rest, depth);
    }
  }

  lemma ElementsStart(s: bytes, i: nat, es: Elements)
    requires ElementsOk(es) && Stands(s, i, ElementsText(es) + [93])
    ensures !ByteAt(s, SpacesEnd(s, i), 93)
  {
    hide TreeText, SpacesEnd, TreeOk;
    var t := PaddedText(es.e);
    assert exists rest :: ElementsText(es) + [93] == t + rest by {
      if es.LastElement? { assert ElementsText(es) + [93] == t + [93]; }
      else { assert ElementsText(es) + [93] == t + ([44] + (ElementsText(es.rest) + [93])); }
    }
    var rest :| ElementsText(es) + [93] == t + rest;
    StandsSplit(s, i, t, rest);
    ValueStarts(s, i, es.e);
  }

  /** Behind the white space before a value there is no closing bracket. */
  lemma ValueStarts(s: bytes, i: nat, p: Padded)
    requires PaddedOk(p) && Stands(s, i, PaddedText(p))
    ensures SpacesEnd(s, i) == i + |p.before| && !ByteAt(s, i + |p.before|, 93) && !ByteAt(s, i + |p.before|, 125)
  {
    hide TreeText, SpacesEnd, TreeOk, Stands;
    assert PaddedText(p) == p.before + (TreeText(p.tree) + p.after);
    StandsSplit(s, i, p.before, TreeText(p.tree) + p.after);
    StandsSplit(s, i + |p.before|, TreeText(p.tree), p.after);
    TreeStarts(s, i + |p.before|, p.tree);
    SpacesUpTo(s, i, p.before);
  }

  lemma ElementsAfterSpaces(s: bytes, i: nat, depth: nat)
    requires i <= |s|
    ensures ParseElements(s, SpacesEnd(s, i), depth) == ParseElements(s, i, depth)
  {
    hide ParseBare, SpacesEnd;
    SpacesOnce(s, i);
    assert ParseValue(s, SpacesEnd(s, i), depth) == ParseValue(s, i, depth);
  }

  lemma EntriesAfterSpaces(s: bytes, i: nat, depth: nat)
    requires i <= |s|
    ensures ParseMembers(s, SpacesEnd(s, i), depth) == ParseMembers(s, i, depth)
  {
    hide ParseValue, ParseChars, SpacesEnd;
    SpacesOnce(s, i);
    assert ParseMember(s, SpacesEnd(s, i), depth) == ParseMember(s, i, depth);
  }

  lemma {:induction false} EntryStands(s: bytes, i: nat, m: Entry, depth: nat)
    requires EntryOk(m) && Stands(s, i, EntryText(m)) && depth + Depth(m.value.tree) <= MAX_DEPTH
    requires Closes(s, i + |EntryText(m)|)
    ensures ParseMember(s, i, depth) == Some((EntryMeaning(m), i + |EntryText(m)|))
    ensures SpacesEnd(s, i) == i + |m.before| && ByteAt(s, i + |m.before|, QUOTE)
    decreases m, 2
  {
    hide PaddedText, PaddedMeaning, PaddedOk, ParseValue, ParseChars, ItemsText, ItemsOk, ItemsMeaning, SpacesEnd,
        Stands, Closes, Depth;
    var key, v := ItemsText(m.key), PaddedText(m.value);
    var j := i + |m.before|;
    var e := j + 1 + |key| + 1;
    var k := e + |m.gap|;
    assert EntryText(m) == m.before + ([QUOTE] + ((key + [QUOTE]) + (m.gap + ([58] + v))));
    StandsSplit(s, i, m.before, [QUOTE] + ((key + [QUOTE]) + (m.gap + ([58] + v))));
    StandsSplit(s, j, [QUOTE], (key + [QUOTE]) + (m.gap + ([58] + v)));
    StandsSplit(s, j + 1, key + [QUOTE], m.gap + ([58] + v));
    StandsSplit(s, e, m.gap, [58] + v);
    StandsSplit(s, k, [58], v);
    StandsOne(s, j, QUOTE);
    StandsOne(s, k, 58);
    SpacesUpTo(s, i, m.before);
    SpacesUpTo(s, e, m.gap);
    CharsStand(s, j + 1, m.key);
    PaddedStands(s, k + 1, m.value, depth);
  }

  lemma {:induction false} EntriesStand(s: bytes, i: nat, ms: Entries, depth: nat)
    requires EntriesOk(ms) && Stands(s, i, EntriesText(ms) + [125]) && depth + EntriesDepth(ms) <= MAX_DEPTH
    ensures ParseMembers(s, i, depth) == Some((EntriesMeaning(ms), i + |EntriesText(ms)| + 1))
    ensures ByteAt(s, SpacesEnd(s, i), QUOTE)
    decreases ms, 3
  {
    hide EntryText, EntryMeaning, EntryOk, ParseMember, Stands, Depth, SpacesEnd;
    var t := EntryText(ms.m);
    if ms.LastEntry? {
      StandsSplit(s, i, t, [125]);
      StandsOne(s, i + |t|, 125);
      EntryStands(s, i, ms.m, depth);
      assert EntriesMeaning(ms) == [EntryMeaning(ms.m)];
    } else {
      assert EntriesText(ms) + [125] == t + ([44] + (EntriesText(ms.rest) + [125]));
      StandsSplit(s, i, t, [44] + (EntriesText(ms.rest) + [125]));
      StandsSplit(s, i + |t|, [44], EntriesText(ms.rest) + [125]);
      StandsOne(s, i + |t|, 44);
      EntryStands(s, i, ms.m, depth);
      EntriesStand(s, i + |t| + 1, ms.rest, depth);
    }
  }

  // ----- Everything that is read is the text of a tree

  lemma JoinStands(s: bytes, i: nat, a: bytes, b: bytes)
    requires Stands(s, i, a) && Stands(s, i + |a|, b)
    ensures Stands(s, i, a + b)
  {
    StandsSplit(s, i, a, b);
  }

  lemma CutStands(s: bytes, i: nat, e: nat)
    requires i <= e <= |s|
    ensures Stands(s, i, s[i..e])
  {
  }

  lemma {:induction false} TreeFound(s: bytes, j: nat, depth: nat) returns (t: Tree)
    requires j <= |s| && ParseBare(s, j, depth).Some? && depth <= MAX_DEPTH
    ensures TreeOk(t) && Stands(s, j, TreeText(t)) && depth + Depth(t) <= MAX_DEPTH
    ensures ParseBare(s, j, depth) == Some((TreeMeaning(t), j + |TreeText(t)|))
    decreases |s| - j, 1
  {
    hide ItemsText, ElementsText, EntriesText, NumeralText, NumeralMeaning, Finite, ParseChars, ParseNumber, SpacesEnd;
    hide NumeralOk, ItemsOk, ElementsOk, EntriesOk, ParseElements, ParseMembers, ParseBare, Stands;
    assert j < |s| by { SomethingThere(s, j, depth); }
    StandsOne(s, j, s[j]);
    if s[j] == 123 {
      t := ObjectFound(s, j, depth);
    } else if s[j] == 91 {
      t := ArrayFound(s, j, depth);
    } else if s[j] == QUOTE {
      BareText(s, j, depth);
      var items := CharsFound(s, j + 1);
      t := Characters(items);
      JoinStands(s, j, [QUOTE], ItemsText(items) + [QUOTE]);
      assert TreeText(t) == [QUOTE] + (ItemsText(items) + [QUOTE]);
    } else if s[j] == 45 || IsDigit(s[j]) {
      BareNumber(s, j, depth);
      var n := NumeralFound(s, j);
      t := Digits(n);
    } else {
      BareWord(s, j, depth);
      t := WordFound(s, j);
    }
  }

  lemma {:induction false} ArrayFound(s: bytes, j: nat, depth: nat) returns (t: Tree)
    requires ByteAt(s, j, 91) && ParseBare(s, j, depth).Some? && depth <= MAX_DEPTH
    ensures TreeOk(t) && Stands(s, j, TreeText(t)) && depth + Depth(t) <= MAX_DEPTH
    ensures ParseBare(s, j, depth) == Some((TreeMeaning(t), j + |TreeText(t)|))
    decreases |s| - j, 0
  {
    hide ElementsText, SpacesEnd, ElementsOk, ParseElements, ParseBare, Stands;
    BareArray(s, j, depth);
    var k := SpacesEnd(s, j + 1);
    if ByteAt(s, k, 93) {
      t := EmptyArray(s[j + 1..k]);
      EmptyFound(s, j, 91, 93);
    } else {
      var elements := ElementsFound(s, j + 1, depth + 1);
      t := ArrayOf(elements);
      StandsOne(s, j, 91);
      JoinStands(s, j, [91], ElementsText(elements) + [93]);
      assert TreeText(t) == [91] + (ElementsText(elements) + [93]);
    }
  }

  lemma {:induction false} ObjectFound(s: bytes, j: nat, depth: nat) returns (t: Tree)
    requires ByteAt(s, j, 123) && ParseBare(s, j, depth).Some? && depth <= MAX_DEPTH
    ensures TreeOk(t) && Stands(s, j, TreeText(t)) && depth + Depth(t) <= MAX_DEPTH
    ensures ParseBare(s, j, depth) == Some((TreeMeaning(t), j + |TreeText(t)|))
    decreases |s| - j, 0
  {
    hide EntriesText, SpacesEnd, EntriesOk, ParseMembers, ParseBare, Stands;
    BareObject(s, j, depth);
    var k := SpacesEnd(s, j + 1);
    if ByteAt(s, k, 125) {
      t := EmptyObject(s[j + 1..k]);
      EmptyFound(s, j, 123, 125);
    } else {
      var entries := EntriesFound(s, j + 1, depth + 1);
      t := ObjectOf(entries);
      StandsOne(s, j, 123);
      JoinStands(s, j, [123], EntriesText(entries) + [125]);
      assert TreeText(t) == [123] + (EntriesText(entries) + [125]);
    }
  }

  function WordFound(s: bytes, j: nat): Tree {
    if Stands(s, j, TRUE_WORD) then TrueWord else if Stands(s, j, FALSE_WORD) then FalseWord else NullWord
  }

  lemma SomethingThere(s: bytes, j: nat, depth: nat)
    requires j <= |s| && ParseBare(s, j, depth).Some?
    ensures j < |s|
  {
  }

  lemma EmptyFound(s: bytes, j: nat, open: byte, close: byte)
    requires j < |s| && s[j] == open && ByteAt(s, SpacesEnd(s, j + 1), close)
    ensures var gap := s[j + 1..SpacesEnd(s, j + 1)];
            AllSpaces(gap) && |[open] + gap + [close]| == SpacesEnd(s, j + 1) + 1 - j
                && Stands(s, j, [open] + gap + [close])
  {
    hide SpacesEnd;
    var k := SpacesEnd(s, j + 1);
    SkippedSpaces(s, j + 1);
    assert s[j..k + 1] == [open] + s[j + 1..k] + [close];
  }

  lemma {:induction false} PaddedFound(s: bytes, i: nat, depth: nat) returns (p: Padded)
    requires i <= |s| && ParseValue(s, i, depth).Some? && depth <= MAX_DEPTH
    ensures PaddedOk(p) && Stands(s, i, PaddedText(p)) && depth + Depth(p.tree) <= MAX_DEPTH
    ensures ParseValue(s, i, depth) == Some((PaddedMeaning(p), i + |PaddedText(p)|))
    decreases |s| - i, 2
  {
    hide TreeText, TreeMeaning, TreeOk, ParseBare, SpacesEnd, Stands, Depth;
    var j := SpacesEnd(s, i);
    var t := TreeFound(s, j, depth);
    var e := j + |TreeText(t)|;
    var m := SpacesEnd(s, e);
    SkippedSpaces(s, i);
    SkippedSpaces(s, e);
    p := Padded(s[i..j], t, s[e..m]);
    CutStands(s, i, j);
    CutStands(s, e, m);
    JoinStands(s, j, TreeText(t), s[e..m]);
    JoinStands(s, i, s[i..j], TreeText(t) + s[e..m]);
    assert PaddedText(p) == s[i..j] + (TreeText(t) + s[e..m]);
  }

  lemma {:induction false} ElementsFound(s: bytes, i: nat, depth: nat) returns (es: Elements)
    requires i <= |s| && ParseElements(s, i, depth).Some? && depth <= MAX_DEPTH
    ensures ElementsOk(es) && Stands(s, i, ElementsText(es) + [93]) && depth + ElementsDepth(es) <= MAX_DEPTH
    ensures ParseElements(s, i, depth) == Some((ElementsMeaning(es), i + |ElementsText(es)| + 1))
    decreases |s| - i, 3
  {
    hide PaddedText, PaddedMeaning, PaddedOk, ParseValue, Stands, Depth;
    var p := PaddedFound(s, i, depth);
    var j := i + |PaddedText(p)|;
    StandsOne(s, j, if j < |s| then s[j] else 0);
    if ByteAt(s, j, 93) {
      es := LastElement(p);
      JoinStands(s, i, PaddedText(p), [93]);
      assert ElementsMeaning(es) == [PaddedMeaning(p)];
    } else {
      var rest := ElementsFound(s, j + 1, depth);
      es := NextElement(p, rest);
      JoinStands(s, j, [44], ElementsText(rest) + [93]);
      JoinStands(s, i, PaddedText(p), [44] + (ElementsText(rest) + [93]));
      ListRegroups(PaddedText(p), ElementsText(rest), 93);
    }
  }

  lemma {:induction false} EntryFound(s: bytes, i: nat, depth: nat) returns (m: Entry)
    requires i <= |s| && ParseMember(s, i, depth).Some? && depth <= MAX_DEPTH
    ensures EntryOk(m) && Stands(s, i, EntryText(m)) && depth + Depth(m.value.tree) <= MAX_DEPTH
    ensures ParseMember(s, i, depth) == Some((EntryMeaning(m), i + |EntryText(m)|))
    decreases |s| - i, 3
  {
    hide PaddedText, PaddedMeaning, PaddedOk, ParseValue, ParseChars, ItemsText, ItemsOk, ItemsMeaning, SpacesEnd,
        Stands, Depth, EntryText;
    var j := SpacesEnd(s, i);
    var items := CharsFound(s, j + 1);
    var key := ItemsText(items);
    var e := j + 1 + |key| + 1;
    var k := SpacesEnd(s, e);
    var v := PaddedFound(s, k + 1, depth);
    SkippedSpaces(s, i);
    SkippedSpaces(s, e);
    m := Entry(s[i..j], items, s[e..k], v);
    EntryJoins(s, i, m);
  }

  /** An entry stands where its parts stand, one behind the other. */
  lemma EntryJoins(s: bytes, i: nat, m: Entry)
    requires var j := i + |m.before|;
             var e := j + 1 + |ItemsText(m.key)| + 1;
             var k := e + |m.gap|;
             && j <= e <= k <= |s| && s[i..j] == m.before && ByteAt(s, j, QUOTE)
             && Stands(s, j + 1, ItemsText(m.key) + [QUOTE]) && s[e..k] == m.gap
             && ByteAt(s, k, 58) && Stands(s, k + 1, PaddedText(m.value))
    ensures Stands(s, i, EntryText(m))
    ensures |EntryText(m)| == |m.before| + 1 + |ItemsText(m.key)| + 1 + |m.gap| + 1 + |PaddedText(m.value)|
  {
    hide ItemsText, PaddedText, Stands;
    var key := ItemsText(m.key);
    var j := i + |m.before|;
    var e := j + 1 + |key| + 1;
    var k := e + |m.gap|;
    StandsOne(s, j, QUOTE);
    StandsOne(s, k, 58);
    CutStands(s, i, j);
    CutStands(s, e, k);
    var tail := [58] + PaddedText(m.value);
    JoinStands(s, k, [58], PaddedText(m.value));
    JoinStands(s, e, m.gap, tail);
    JoinStands(s, j + 1, key + [QUOTE], m.gap + tail);
    JoinStands(s, j, [QUOTE], key + [QUOTE] + (m.gap + tail));
    JoinStands(s, i, m.before, [QUOTE] + (key + [QUOTE] + (m.gap + tail)));
    EntryRegroups(m.before, key, m.gap, PaddedText(m.value));
  }

  lemma EntryRegroups(before: bytes, key: bytes, gap: bytes, value: bytes)
    ensures before + [QUOTE] + key + [QUOTE] + gap + [58] + value
         == before + ([QUOTE] + (key + [QUOTE] + (gap + ([58] + value))))
  {
    var tail := gap + ([58] + value);
    assert before + [QUOTE] + key + [QUOTE] + gap + [58] + value == before + [QUOTE] + key + [QUOTE] + tail;
    assert before + [QUOTE] + key + [QUOTE] + tail == before + ([QUOTE] + (key + [QUOTE] + tail));
  }

  lemma ListRegroups(first: bytes, rest: bytes, close: byte)
    ensures first + [44] + rest + [close] == first + ([44] + (rest + [close]))
  {
  }

  lemma {:induction false} EntriesFound(s: bytes, i: nat, depth: nat) returns (ms: Entries)
    requires i <= |s| && ParseMembers(s, i, depth).Some? && depth <= MAX_DEPTH
    ensures EntriesOk(ms) && Stands(s, i, EntriesText(ms) + [125]) && depth + EntriesDepth(ms) <= MAX_DEPTH
    ensures ParseMembers(s, i, depth) == Some((EntriesMeaning(ms), i + |EntriesText(ms)| + 1))
    decreases |s| - i, 4
  {
    hide EntryText, EntryMeaning, EntryOk, ParseMember, Stands, Depth;
    var m := EntryFound(s, i, depth);
    var j := i + |EntryText(m)|;
    StandsOne(s, j, if j < |s| then s[j] else 0);
    if ByteAt(s, j, 125) {
      ms := LastEntry(m);
      JoinStands(s, i, EntryText(m), [125]);
      assert EntriesMeaning(ms) == [EntryMeaning(m)];
    } else {
      var rest := EntriesFound(s, j + 1, depth);
      ms := NextEntry(m, rest);
      JoinStands(s, j, [44], EntriesText(rest) + [125]);
      JoinStands(s, i, EntryText(m), [44] + (EntriesText(rest) + [125]));
      ListRegroups(EntryText(m), EntriesText(rest), 125);
    }
  }

  // ----- The theorem

  /** `p` is a reading of `s`: its text is `s` and it is at most 256 deep. */
  predicate Reads(s: bytes, p: Padded) {
    PaddedOk(p) && PaddedText(p) == s && Depth(p.tree) <= 256
  }

  /** The text of a tree is parsed as what the tree means. */
  lemma TextParses(s: bytes, p: Padded)
    requires |s| <= INT_MAX && Reads(s, p)
    ensures Parse(s) == Some(PaddedMeaning(p))
  {
    hide PaddedText, PaddedMeaning, PaddedOk, ParseValue, Depth;
    assert s[..|s|] == s;
    PaddedStands(s, 0, p, 0);
  }

  /**
   * The parser decides the grammar: it accepts exactly the texts below 2 GiB that have a reading,
   * and its result is what every reading means.
   */
  lemma ParserDecidesGrammar(s: bytes)
    ensures Parse(s).Some? <==> |s| < 0x8000_0000 && exists p :: Reads(s, p)
    ensures forall p :: Reads(s, p) && |s| < 0x8000_0000 ==> Parse(s) == Some(PaddedMeaning(p))
  {
    hide PaddedText, PaddedMeaning, PaddedOk, ParseValue, Depth;
    forall p | Reads(s, p) && |s| < 0x8000_0000 ensures Parse(s) == Some(PaddedMeaning(p)) { TextParses(s, p); }
    if Parse(s).Some? {
      var p := ReadingFound(s);
    }
  }

  lemma ReadingFound(s: bytes) returns (p: Padded)
    requires Parse(s).Some?
    ensures Reads(s, p)
  {
    hide PaddedMeaning, PaddedOk, ParseValue, Depth;
    p := PaddedFound(s, 0, 0);
    assert s[0..|s|] == s;
  }
}

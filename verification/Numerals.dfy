/** Numbers as text: printf's "%u" and "%08x", and strtoul. */
module Numerals {
  import opened Bytes
  import opened Options

  const UINT32_RANGE := 0x1_0000_0000
  const UINT64_RANGE := 0x1_0000_0000_0000_0000

  predicate IsDigit(c: byte) { 48 <= c <= 57 }

  predicate IsSpace(c: byte) { c == 32 || 9 <= c <= 13 }

  /** The value of a digit in bases up to 16, as isxdigit and toupper see it. */
  function DigitValue(c: byte): (r: Option<nat>)
    ensures r.Some? ==> r.value < 16
    ensures IsDigit(c) <==> r.Some? && r.value < 10
  {
    if 48 <= c <= 57 then Some(c - 48)
    else if 97 <= c <= 102 then Some(c - 97 + 10)
    else if 65 <= c <= 70 then Some(c - 65 + 10)
    else None
  }

  predicate IsDigitIn(c: byte, base: nat) {
    DigitValue(c).Some? && DigitValue(c).value < base
  }

  // ----- Printing

  /** "%u" */
  function Decimal(n: nat): (r: bytes)
    ensures |r| > 0
    ensures forall i :: 0 <= i < |r| ==> IsDigit(r[i])
    ensures n > 0 ==> r[0] != 48
    ensures n == 0 ==> r == [48]
  {
    if n < 10 then [48 + n] else Decimal(n / 10) + [48 + n % 10]
  }

  function HexDigit(n: nat): (c: byte)
    requires n < 16
    ensures IsDigitIn(c, 16) && DigitValue(c).value == n
  {
    if n < 10 then 48 + n else 97 + n - 10
  }

  /** "%08x" for `width` 8 */
  function Hex(n: nat, width: nat): (r: bytes)
    ensures |r| == width
    ensures forall i :: 0 <= i < width ==> IsDigitIn(r[i], 16)
  {
    if width == 0 then [] else Hex(n / 16, width - 1) + [HexDigit(n % 16)]
  }

  // ----- Reading

  /** The value of a run of digits. */
  function Value(s: bytes, base: nat): nat
    requires base == 8 || base == 10 || base == 16
    requires forall i :: 0 <= i < |s| ==> IsDigitIn(s[i], base)
  {
    if |s| == 0 then 0
    else
      assert IsDigitIn(s[|s| - 1], base);
      var high := Value(s[..|s| - 1], base);
      (if base == 8 then 8 * high else if base == 10 then 10 * high else 16 * high) + DigitValue(s[|s| - 1]).value
  }

  lemma {:induction false} ValueOfDecimal(n: nat)
    ensures Value(Decimal(n), 10) == n
  {
    if n >= 10 {
      var d := Decimal(n);
      assert d[..|d| - 1] == Decimal(n / 10);
      ValueOfDecimal(n / 10);
    } else {
      assert Decimal(n)[..0] == [];
    }
  }

  lemma {:induction false} ValueOfHex(n: nat, width: nat)
    requires n < Power16(width)
    ensures Value(Hex(n, width), 16) == n
  {
    if width > 0 {
      var h := Hex(n, width);
      assert h[..|h| - 1] == Hex(n / 16, width - 1);
      ValueOfHex(n / 16, width - 1);
    }
  }

  function Power16(width: nat): nat {
    if width == 0 then 1 else 16 * Power16(width - 1)
  }

  /** Where the run of `base` digits that starts at `i` ends. */
  function DigitsEnd(s: bytes, i: nat, base: nat): (e: nat)
    requires i <= |s|
    ensures i <= e <= |s|
    ensures forall k :: i <= k < e ==> IsDigitIn(s[k], base)
    ensures e < |s| ==> !IsDigitIn(s[e], base)
    decreases |s| - i
  {
    if i < |s| && IsDigitIn(s[i], base) then DigitsEnd(s, i + 1, base) else i
  }

  function SpacesEnd(s: bytes, i: nat): (e: nat)
    requires i <= |s|
    ensures i <= e <= |s|
    decreases |s| - i
  {
    if i < |s| && IsSpace(s[i]) then SpacesEnd(s, i + 1) else i
  }

  /**
   * strtoul(s, &end, base) for base 0 or 10: spaces, a sign, with base 0 a prefix, and
   * digits; no digits means no conversion, too many saturate and '-' negates modulo 2^64.
   */
  function Strtoul(s: bytes, base: nat): (r: (nat, nat))
    requires base == 0 || base == 10
    ensures r.0 < UINT64_RANGE && r.1 <= |s|
  {
    var i := SpacesEnd(s, 0);
    var negative := i < |s| && s[i] == 45;
    var j := if i < |s| && (s[i] == 45 || s[i] == 43) then i + 1 else i;
    var hex := base == 0 && j + 2 < |s| && s[j] == 48 && (s[j + 1] == 120 || s[j + 1] == 88) && IsDigitIn(s[j + 2], 16);
    var b := if hex then 16 else if base == 0 && j < |s| && s[j] == 48 then 8 else 10;
    var start := if hex then j + 2 else j;
    Convert(s, start, b, negative)
  }

  /** The digits from `start` on, in base `b`. */
  function Convert(s: bytes, start: nat, b: nat, negative: bool): (r: (nat, nat))
    requires start <= |s| && (b == 8 || b == 10 || b == 16)
    ensures r.0 < UINT64_RANGE && r.1 <= |s|
  {
    var end := DigitsEnd(s, start, b);
    if end == start then (0, 0)
    else
      var v := Value(s[start..end], b);
      (if v >= UINT64_RANGE then UINT64_RANGE - 1
       else if negative then (UINT64_RANGE - v) % UINT64_RANGE
       else v, end)
  }

  /** Text that does not carry on the number before it. */
  predicate Stops(rest: bytes) { rest == [] || (!IsDigitIn(rest[0], 16) && rest[0] != 120 && rest[0] != 88) }

  /** strtoul reads back what "%u" printed, in either base, and stops right after it. */
  lemma StrtoulOfDecimal(n: nat, rest: bytes, base: nat)
    requires n < UINT64_RANGE && (base == 0 || base == 10) && Stops(rest)
    ensures Strtoul(Decimal(n) + rest, base) == (n, |Decimal(n)|)
  {
    hide Convert;
    var d := Decimal(n);
    var s := d + rest;
    assert s[0] == d[0];
    assert SpacesEnd(s, 0) == 0;
    if base == 0 && s[0] == 48 {
      assert d == [48];
      ConvertZero(rest);
    } else {
      ConvertDecimal(n, rest);
    }
  }

  lemma ConvertZero(rest: bytes)
    requires Stops(rest)
    ensures Convert([48] + rest, 0, 8, false) == (0, 1)
  {
    DigitsEndIs([48] + rest, 0, 8, 1);
    assert ([48] + rest)[0..1] == [48];
    assert Value([48], 8) == 0 by { assert [48][..0] == []; }
  }

  lemma ConvertDecimal(n: nat, rest: bytes)
    requires n < UINT64_RANGE && Stops(rest)
    ensures Convert(Decimal(n) + rest, 0, 10, false) == (n, |Decimal(n)|)
  {
    var d := Decimal(n);
    DigitsEndIs(d + rest, 0, 10, |d|);
    assert (d + rest)[0..|d|] == d;
    ValueOfDecimal(n);
  }

  lemma {:induction false} DigitsEndIs(s: bytes, i: nat, base: nat, e: nat)
    requires i <= e <= |s|
    requires forall k :: i <= k < e ==> IsDigitIn(s[k], base)
    requires e < |s| ==> !IsDigitIn(s[e], base)
    ensures DigitsEnd(s, i, base) == e
    decreases e - i
  {
    if i < e { DigitsEndIs(s, i + 1, base, e); }
  }

  /** "%d" of an int. */
  function SignedDecimal(i: int): bytes {
    if i < 0 then [45] + Decimal(-i) else Decimal(i)
  }

  /** "%d" of an unsigned int: from 2^31 on it comes out negative. */
  function PrintD(n: nat): bytes {
    if n < 0x8000_0000 then SignedDecimal(n) else SignedDecimal(n - 0x1_0000_0000)
  }

  /** strtoul, cut to 32 bits, undoes the wrong sign. */
  lemma StrtoulOfPrintD(n: nat)
    requires n < UINT32_RANGE
    ensures Strtoul(PrintD(n), 10).0 % 0x1_0000_0000 == n
  {
    hide Convert;
    if n < 0x8000_0000 {
      StrtoulOfDecimal(n, [], 10);
      assert Decimal(n) + [] == Decimal(n);
    } else {
      var m := UINT32_RANGE - n;
      var d := Decimal(m);
      var s := [45] + d;
      assert SpacesEnd(s, 0) == 0;
      ConvertNegative(m);
      assert (UINT64_RANGE - m) % UINT64_RANGE == 0xFFFF_FFFF * 0x1_0000_0000 + n;
    }
  }

  lemma ConvertNegative(m: nat)
    requires 0 < m < UINT32_RANGE
    ensures Convert([45] + Decimal(m), 1, 10, true).0 == (UINT64_RANGE - m) % UINT64_RANGE
  {
    var d := Decimal(m);
    DigitsEndIs([45] + d, 1, 10, 1 + |d|);
    assert ([45] + d)[1..1 + |d|] == d;
    ValueOfDecimal(m);
  }

  /** Too large a number is read as the largest there is. */
  lemma StrtoulSaturates(s: bytes)
    requires |s| > 0 && IsDigit(s[0]) && forall i :: 0 <= i < |s| ==> IsDigitIn(s[i], 10)
    requires Value(s, 10) >= UINT64_RANGE
    ensures Strtoul(s, 10) == (0xFFFF_FFFF_FFFF_FFFF, |s|)
  {
    hide Value;
    assert SpacesEnd(s, 0) == 0;
    DigitsEndIs(s, 0, 10, |s|);
    assert s[0..|s|] == s;
  }

  /** In base 0 a number may be hexadecimal, with its prefix in either case. */
  lemma StrtoulOfHex(n: nat, width: nat, x: byte)
    requires 0 < width && n < Power16(width) && n < UINT64_RANGE && (x == 120 || x == 88)
    ensures Strtoul([48, x] + Hex(n, width), 0) == (n, width + 2)
  {
    hide Value, Power16, Hex;
    var h := Hex(n, width);
    var s := [48, x] + h;
    assert SpacesEnd(s, 0) == 0;
    assert s[2] == h[0] && s[2..|s|] == h;
    DigitsEndIs(s, 2, 16, |s|);
    ValueOfHex(n, width);
  }

  /** Or octal, with a zero in front. */
  lemma StrtoulOfOctal(digits: bytes)
    requires forall i :: 0 <= i < |digits| ==> IsDigitIn(digits[i], 8)
    requires Value(digits, 8) < UINT64_RANGE
    ensures Strtoul([48] + digits, 0) == (Value(digits, 8), |digits| + 1)
  {
    hide Value;
    var s := [48] + digits;
    assert SpacesEnd(s, 0) == 0;
    DigitsEndIs(s, 0, 8, |s|);
    assert s[0..|s|] == s;
    LeadingZero(digits);
  }

  lemma {:induction false} LeadingZero(digits: bytes)
    requires forall i :: 0 <= i < |digits| ==> IsDigitIn(digits[i], 8)
    ensures forall i :: 0 <= i < |digits| + 1 ==> IsDigitIn(([48] + digits)[i], 8)
    ensures Value([48] + digits, 8) == Value(digits, 8)
  {
    if |digits| > 0 {
      assert ([48] + digits)[..|digits|] == [48] + digits[..|digits| - 1];
      LeadingZero(digits[..|digits| - 1]);
    } else {
      assert [48] + digits == [48] && [48][..0] == [];
    }
  }
}

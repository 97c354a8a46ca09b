/**
 * What the definitions that grammar and parser share say, in other words: the characters and words of RFC 8259,
 * hexadecimal units as numbers to the base 16, numerals as one integer and a power of ten.
 */
module JsonReference {
  import opened Bytes
  import opened Options
  import opened Numerals
  import opened JsonSpec
  import opened JsonGrammar
  import Flashmap

  /** The words and marks, as text. */
  lemma Characters()
    ensures TRUE_WORD == Text("true") && FALSE_WORD == Text("false") && NULL_WORD == Text("null")
    ensures [QUOTE] == Text("\"") && [BACKSLASH] == Text("\\")
  {
  }

  const LOWER := "0123456789abcdef"
  const UPPER := "0123456789ABCDEF"

  /** The hexadecimal digits of both cases, in the order of their values, and the white space of isspace. */
  lemma DigitsAndSpaces(c: byte, v: nat)
    ensures DigitValue(c) == Some(v) <==> v < 16 && (Text(LOWER)[v] == c || Text(UPPER)[v] == c)
    ensures IsSpace(c) <==> c in [32, 9, 10, 11, 12, 13]
  {
    hide Text;
    if v < 16 {
      LowerIs(v);
      UpperIs(v);
    }
  }

  lemma LowerIs(v: nat)
    requires v < 16
    ensures Text(LOWER)[v] == if v < 10 then 48 + v else 87 + v
  {
    assert Text(LOWER) == [48, 49, 50, 51, 52, 53, 54, 55, 56, 57, 97, 98, 99, 100, 101, 102];
    hide Text;
  }

  lemma UpperIs(v: nat)
    requires v < 16
    ensures Text(UPPER)[v] == if v < 10 then 48 + v else 55 + v
  {
    assert Text(UPPER) == [48, 49, 50, 51, 52, 53, 54, 55, 56, 57, 65, 66, 67, 68, 69, 70];
    hide Text;
  }

  /** The letters behind a backslash, and what they stand for (section 7 of RFC 8259). */
  const LETTERS := "\"\\/bfnrt"
  const MEANINGS: bytes := [34, 92, 47, 8, 12, 10, 13, 9]

  lemma EscapeTable(c: byte, v: byte)
    ensures ShortEscape(c) == Some(v) <==> exists i :: 0 <= i < 8 && Text(LETTERS)[i] == c && MEANINGS[i] == v
  {
    var t := Text(LETTERS);
    assert t == [34, 92, 47, 98, 102, 110, 114, 116];
    assert forall i :: 0 <= i < 8 && t[i] == c && MEANINGS[i] == v ==> ShortEscape(c) == Some(v);
    if ShortEscape(c) == Some(v) {
      var i := if c == 34 then 0 else if c == 92 then 1 else if c == 47 then 2 else if c == 98 then 3
               else if c == 102 then 4 else if c == 110 then 5 else if c == 114 then 6 else 7;
      assert t[i] == c && MEANINGS[i] == v;
    }
  }

  /** Four hexadecimal digits are the number they are to the base 16. */
  lemma HexUnitIsNumber(digits: bytes)
    requires |digits| == 4 && forall i :: 0 <= i < 4 ==> IsDigitIn(digits[i], 16)
    ensures HexUnit(digits, 0) == Some(Numerals.Value(digits, 16))
  {
    hide DigitValue;
    assert digits[..3][..2] == digits[..2] && digits[..2][..1] == digits[..1] && digits[..1][..0] == [];
    assert Numerals.Value(digits[..1], 16) == DigitValue(digits[0]).value;
    assert Numerals.Value(digits[..2], 16) == 16 * Numerals.Value(digits[..1], 16) + DigitValue(digits[1]).value;
    assert Numerals.Value(digits[..3], 16) == 16 * Numerals.Value(digits[..2], 16) + DigitValue(digits[2]).value;
  }

  // ----- Numerals

  function TenTo(k: int): (p: real)
    ensures p > 0.0
  {
    if k >= 0 then Power10(k) else 1.0 / Power10(-k)
  }

  lemma {:induction false} Power10Adds(a: nat, b: nat)
    ensures Power10(a + b) == Power10(a) * Power10(b)
  {
    if a > 0 { Power10Adds(a - 1, b); }
  }

  lemma TenToAdds(a: int, b: int)
    ensures TenTo(a + b) == TenTo(a) * TenTo(b)
  {
    hide Power10;
    if a >= 0 && b >= 0 {
      Power10Adds(a, b);
    } else if a < 0 && b < 0 {
      Power10Adds(-a, -b);
      Inverses(Power10(-a), Power10(-b));
    } else if a < 0 {
      TenToTakes(b, -a);
    } else {
      TenToTakes(a, -b);
    }
  }

  lemma Inverses(x: real, y: real)
    requires x > 0.0 && y > 0.0
    ensures x * y > 0.0 && 1.0 / (x * y) == 1.0 / x * (1.0 / y)
  {
    assert x * y * (1.0 / x * (1.0 / y)) == x * (1.0 / x) * (y * (1.0 / y));
  }

  lemma TenToTakes(a: nat, b: nat)
    ensures TenTo(a - b) == Power10(a) * (1.0 / Power10(b))
  {
    hide Power10, TenTo;
    if a >= b { TenToAbove(a - b, b); } else { TenToBelow(b - a, a); }
  }

  lemma TenToAbove(d: nat, b: nat)
    ensures TenTo(d) == Power10(d + b) * (1.0 / Power10(b))
  {
    hide Power10;
    Power10Adds(d, b);
    Cancels(Power10(d), Power10(b), Power10(d + b));
  }

  lemma TenToBelow(d: nat, a: nat)
    requires d > 0
    ensures TenTo(0 - d) == Power10(a) * (1.0 / Power10(d + a))
  {
    hide Power10;
    Power10Adds(d, a);
    CancelsBelow(Power10(d), Power10(a), Power10(d + a));
  }

  lemma CancelsBelow(x: real, y: real, z: real)
    requires x > 0.0 && y > 0.0 && z == x * y
    ensures 1.0 / x == y * (1.0 / z)
  {
    Inverses(x, y);
    Cancels(1.0 / x, 1.0 / y, 1.0 / z);
  }

  lemma Cancels(x: real, y: real, z: real)
    requires y > 0.0 && z == x * y
    ensures x == z * (1.0 / y)
  {
    assert x * y * (1.0 / y) == x * (y * (1.0 / y));
  }

  lemma {:induction false} ValueJoins(a: bytes, b: bytes)
    requires AllDigits(a) && AllDigits(b)
    ensures AllDigits(a + b)
    ensures Numerals.Value(a + b, 10) as real
         == Numerals.Value(a, 10) as real * Power10(|b|) + Numerals.Value(b, 10) as real
  {
    hide Numerals.Value, Power10, DigitValue;
    if |b| == 0 {
      assert a + b == a;
      NoExponent();
    } else {
      var init, c := b[..|b| - 1], b[|b| - 1];
      assert a + b == a + init + [c] && b == init + [c] && IsDigitIn(c, 10);
      assert AllDigits(init);
      ValueJoins(a, init);
      ValueAppended(a + init, c);
      ValueAppended(init, c);
      OneMorePower(|init|);
      OneMoreDigit(Numerals.Value(a, 10) as real, Power10(|init|), Numerals.Value(init, 10) as real,
                   DigitValue(c).value as real);
    }
  }

  lemma ValueAppended(s: bytes, c: byte)
    requires AllDigits(s) && IsDigitIn(c, 10)
    ensures AllDigits(s + [c])
    ensures Numerals.Value(s + [c], 10) as real == 10.0 * Numerals.Value(s, 10) as real + DigitValue(c).value as real
  {
    hide DigitValue;
    assert (s + [c])[..|s|] == s;
  }

  lemma OneMorePower(e: nat)
    ensures Power10(e + 1) == 10.0 * Power10(e)
  {
  }

  lemma OneMoreDigit(a: real, p: real, b: real, c: real)
    ensures 10.0 * (a * p + b) + c == a * (10.0 * p) + (10.0 * b + c)
  {
  }

  /** The exponent of a numeral, with its sign. */
  function ExponentOf(n: Numeral): int
    requires NumeralShape(n)
  {
    if n.exponent.None? then 0
    else
      var e: int := Numerals.Value(n.exponent.value.digits, 10);
      if n.exponent.value.sign == [45] then -e else e
  }

  /**
   * The number a numeral means: all its digits as one integer, times ten to the exponent less the number of
   * digits behind the point.
   */
  lemma NumeralIsScaled(n: Numeral)
    requires NumeralShape(n)
    ensures AllDigits(n.whole + n.fraction)
    ensures NumeralMeaning(n)
         == (if n.negative then -1.0 else 1.0) * Numerals.Value(n.whole + n.fraction, 10) as real
            * TenTo(ExponentOf(n) - |n.fraction|)
  {
    hide Power10, TenTo, Numerals.Value, FromParts;
    var w, f := Numerals.Value(n.whole, 10) as real, Numerals.Value(n.fraction, 10) as real;
    var e, d := ExponentOf(n), Numerals.Value(n.whole + n.fraction, 10) as real;
    var sign := if n.negative then -1.0 else 1.0;
    ValueJoins(n.whole, n.fraction);
    MeaningIs(n);
    TenToAdds(e, -|n.fraction|);
    Inverse(|n.fraction|);
    Shifted(w, f, Power10(|n.fraction|), TenTo(e));
    Regroup(sign, d, TenTo(e - |n.fraction|));
  }

  lemma Regroup(a: real, b: real, c: real)
    ensures a * (b * c) == a * b * c
  {
  }

  lemma Inverse(k: nat)
    ensures TenTo(0 - k) == 1.0 / Power10(k)
  {
    if k == 0 { NoExponent(); }
  }

  /** The parts, with the exponent's sign in the power. */
  lemma MeaningIs(n: Numeral)
    requires NumeralShape(n)
    ensures NumeralMeaning(n)
         == (if n.negative then -1.0 else 1.0)
            * ((Numerals.Value(n.whole, 10) as real + Numerals.Value(n.fraction, 10) as real / Power10(|n.fraction|))
               * TenTo(ExponentOf(n)))
  {
    hide Power10, TenTo, Numerals.Value;
    var x := Numerals.Value(n.whole, 10) as real + Numerals.Value(n.fraction, 10) as real / Power10(|n.fraction|);
    NoExponent();
    Scaled(x, ExponentOf(n));
    Signed(n.negative, x * TenTo(ExponentOf(n)));
  }

  lemma Signed(negative: bool, y: real)
    ensures (if negative then -y else y) == (if negative then -1.0 else 1.0) * y
  {
  }

  lemma NoExponent()
    ensures Numerals.Value([], 10) == 0 && Power10(0) == 1.0
  {
  }

  lemma Shifted(w: real, f: real, p: real, t: real)
    requires p > 0.0
    ensures (w + f / p) * t == (w * p + f) * (t * (1.0 / p))
  {
    assert (w * p + f) * (1.0 / p) == w + f / p;
  }

  lemma Scaled(x: real, e: int)
    ensures e >= 0 ==> x * Power10(e) == x * TenTo(e)
    ensures e <= 0 ==> x / Power10(-e) == x * TenTo(e)
  {
    if e == 0 { NoExponent(); }
  }

  /** Numbers are refused from half a step above the largest double on: from there they round to infinity. */
  lemma OverflowIsMidpoint(x: real)
    ensures var middle := ((Power2(53) - 1.0) * Power2(971) + Power2(1024)) / 2.0;
            Finite(x) <==> x < middle && -x < middle
  {
    hide Power2;
    Flashmap.Power2Splits(971, 53);
    assert Power2(971) == 2.0 * Power2(970) by { Doubles(970); }
  }

  lemma Doubles(e: nat)
    ensures Power2(e + 1) == 2.0 * Power2(e)
  {
  }
}

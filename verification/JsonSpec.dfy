/**
 * What the JSON parser accepts, as functions over the text: one character of lookahead
 * picks the alternative, and nothing is read twice.
 */
module JsonSpec {
  import opened Bytes
  import opened Options
  import opened Numerals

  datatype Value =
    | Null | True | False
    | Number(x: real)
    | String(s: bytes)
    | Array(items: seq<Value>)
    | Object(members: seq<Member>)

  datatype Member = Member(key: bytes, value: Value)

  const QUOTE: byte := 34
  const BACKSLASH: byte := 92
  const MAX_DEPTH := 256
  const INT_MAX := 0x7FFF_FFFF

  // ----- Strings

  /** The UTF-8 encoding of a code point (section 3 of RFC 3629). */
  function Utf8(cp: nat): (r: bytes)
    requires cp <= 0x10FFFF
    ensures 1 <= |r| <= 4
  {
    if cp <= 0x7F then [cp]
    else if cp <= 0x7FF then [0xC0 + cp / 64, 0x80 + cp % 64]
    else if cp <= 0xFFFF then [0xE0 + cp / 4096, 0x80 + cp / 64 % 64, 0x80 + cp % 64]
    else [0xF0 + cp / 262144, 0x80 + cp / 4096 % 64, 0x80 + cp / 64 % 64, 0x80 + cp % 64]
  }

  /** Four hexadecimal digits. */
  function HexUnit(s: bytes, i: nat): (r: Option<nat>)
    ensures r.Some? ==> i + 4 <= |s| && r.value < 0x10000
  {
    if i + 4 <= |s| && (forall k :: i <= k < i + 4 ==> IsDigitIn(s[k], 16))
    then Some(4096 * DigitValue(s[i]).value + 256 * DigitValue(s[i + 1]).value
              + 16 * DigitValue(s[i + 2]).value + DigitValue(s[i + 3]).value)
    else None
  }

  /** What a one-letter escape stands for. */
  function ShortEscape(c: byte): Option<byte> {
    if c == 34 || c == 92 || c == 47 then Some(c)
    else if c == 98 then Some(8)
    else if c == 102 then Some(12)
    else if c == 110 then Some(10)
    else if c == 114 then Some(13)
    else if c == 116 then Some(9)
    else None
  }

  predicate IsHighSurrogate(u: nat) { 0xD800 <= u <= 0xDBFF }

  predicate IsLowSurrogate(u: nat) { 0xDC00 <= u <= 0xDFFF }

  /** The code point of a surrogate pair (section 2.1 of RFC 2781). */
  function FromPair(high: nat, low: nat): (cp: nat)
    requires IsHighSurrogate(high) && IsLowSurrogate(low)
    ensures 0x10000 <= cp <= 0x10FFFF
  {
    0x10000 + (high - 0xD800) * 1024 + (low - 0xDC00)
  }

  /** The escape whose backslash is before `i`: what it stands for, and the position behind it. */
  function ParseEscape(s: bytes, i: nat): (r: Option<(bytes, nat)>)
    requires i <= |s|
    ensures r.Some? ==> i < r.value.1 <= |s|
  {
    if i >= |s| then None
    else if ShortEscape(s[i]).Some? then Some(([ShortEscape(s[i]).value], i + 1))
    else if s[i] != 117 then None
    else
      match HexUnit(s, i + 1)
      case None => None
      case Some(u) =>
        if IsHighSurrogate(u) then
          if i + 7 > |s| || s[i + 5] != BACKSLASH || s[i + 6] != 117 then None
          else
            match HexUnit(s, i + 7)
            case None => None
            case Some(low) => if IsLowSurrogate(low) then Some((Utf8(FromPair(u, low)), i + 11)) else None
        else if IsLowSurrogate(u) then None
        else Some((Utf8(u), i + 5))
  }

  /** The characters of a string up to its closing quote, and the position behind it. */
  function ParseChars(s: bytes, i: nat): (r: Option<(bytes, nat)>)
    requires i <= |s|
    ensures r.Some? ==> i < r.value.1 <= |s|
    decreases |s| - i
  {
    if i >= |s| then None
    else if s[i] == QUOTE then Some(([], i + 1))
    else if s[i] == BACKSLASH then
      match ParseEscape(s, i + 1)
      case None => None
      case Some((b, j)) =>
        match ParseChars(s, j)
        case None => None
        case Some((rest, k)) => Some((b + rest, k))
    else if s[i] < 0x20 then None
    else
      match ParseChars(s, i + 1)
      case None => None
      case Some((rest, k)) => Some(([s[i]] + rest, k))
  }

  // ----- Numbers

  predicate DigitAt(s: bytes, i: nat) { i < |s| && IsDigit(s[i]) }

  predicate ByteAt(s: bytes, i: nat, c: byte) { i < |s| && s[i] == c }

  predicate ExponentAt(s: bytes, i: nat) { i < |s| && (s[i] == 101 || s[i] == 69) }

  /** Where the digits of an exponent start, the marker being at `i`. */
  function ExponentStart(s: bytes, i: nat): nat {
    if i + 1 < |s| && (s[i + 1] == 43 || s[i + 1] == 45) then i + 2 else i + 1
  }

  function WholeStart(s: bytes, i: nat): (j: nat)
    ensures i <= j <= i + 1
  {
    if ByteAt(s, i, 45) then i + 1 else i
  }

  /** Behind the whole part that starts at `j`. */
  function WholeEnd(s: bytes, j: nat): (r: Option<nat>)
    ensures r.Some? ==> j < r.value <= |s|
  {
    if !DigitAt(s, j) then None
    else if s[j] == 48 then if DigitAt(s, j + 1) then None else Some(j + 1)
    else Some(DigitsEnd(s, j, 10))
  }

  function FractionEnd(s: bytes, k: nat): (r: Option<nat>)
    requires k <= |s|
    ensures r.Some? ==> k <= r.value <= |s|
  {
    if !ByteAt(s, k, 46) then Some(k)
    else if !DigitAt(s, k + 1) then None
    else Some(DigitsEnd(s, k + 1, 10))
  }

  function ExponentEnd(s: bytes, m: nat): (r: Option<nat>)
    requires m <= |s|
    ensures r.Some? ==> m <= r.value <= |s|
  {
    if !ExponentAt(s, m) then Some(m)
    else if !DigitAt(s, ExponentStart(s, m)) then None
    else Some(DigitsEnd(s, ExponentStart(s, m), 10))
  }

  /** Behind the number that starts at `i`. */
  function NumberEnd(s: bytes, i: nat): (r: Option<nat>)
    ensures r.Some? ==> i < r.value <= |s|
  {
    match WholeEnd(s, WholeStart(s, i))
    case None => None
    case Some(k) =>
      match FractionEnd(s, k)
      case None => None
      case Some(m) => ExponentEnd(s, m)
  }

  function Power10(e: nat): (p: real)
    ensures p > 0.0
  {
    if e == 0 then 1.0 else 10.0 * Power10(e - 1)
  }

  function Power2(e: nat): real { if e == 0 then 1.0 else 2.0 * Power2(e - 1) }

  /** From here on a number rounds to infinity in double precision. */
  function Overflow(): real { Power2(1024) - Power2(970) }

  predicate Finite(x: real) { -Overflow() < x < Overflow() }

  /** A number from its parts. */
  function FromParts(negative: bool, whole: bytes, fraction: bytes, negativeExponent: bool, exponent: bytes): real
    requires forall i :: 0 <= i < |whole| ==> IsDigitIn(whole[i], 10)
    requires forall i :: 0 <= i < |fraction| ==> IsDigitIn(fraction[i], 10)
    requires forall i :: 0 <= i < |exponent| ==> IsDigitIn(exponent[i], 10)
  {
    var x := Numerals.Value(whole, 10) as real + Numerals.Value(fraction, 10) as real / Power10(|fraction|);
    var e := Numerals.Value(exponent, 10);
    var y := if negativeExponent then x / Power10(e) else x * Power10(e);
    if negative then -y else y
  }

  /** strtod on a JSON number, before rounding. */
  function Strtod(t: bytes): real {
    hide DigitsEnd, FromParts;
    var j := WholeStart(t, 0);
    var k := if j <= |t| then DigitsEnd(t, j, 10) else j;
    var m := if ByteAt(t, k, 46) then DigitsEnd(t, k + 1, 10) else k;
    var n := if ExponentAt(t, m) then ExponentStart(t, m) else m;
    if j > |t| then 0.0
    else FromParts(j > 0, t[j..k], if m > k then t[k + 1..m] else [],
                   n > m && ByteAt(t, m + 1, 45), if n > m && n <= |t| then t[n..DigitsEnd(t, n, 10)] else [])
  }

  function ParseNumber(s: bytes, i: nat): (r: Option<(Value, nat)>)
    ensures r.Some? ==> i < r.value.1 <= |s|
  {
    match NumberEnd(s, i)
    case None => None
    case Some(e) =>
      var x := Strtod(s[i..e]);
      if Finite(x) then Some((Number(x), e)) else None
  }

  // ----- Values

  const TRUE_WORD: bytes := [116, 114, 117, 101]
  const FALSE_WORD: bytes := [102, 97, 108, 115, 101]
  const NULL_WORD: bytes := [110, 117, 108, 108]

  function ParseWord(s: bytes, i: nat, word: bytes, v: Value): (r: Option<(Value, nat)>)
    requires |word| > 0
    ensures r.Some? ==> i < r.value.1 <= |s|
  {
    if i + |word| <= |s| && s[i..i + |word|] == word then Some((v, i + |word|)) else None
  }

  lemma {:induction false} SpacesOnce(s: bytes, i: nat)
    requires i <= |s|
    ensures SpacesEnd(s, SpacesEnd(s, i)) == SpacesEnd(s, i)
    decreases |s| - i
  {
    if i < |s| && IsSpace(s[i]) { SpacesOnce(s, i + 1); }
  }

  /** A value with white space around it. */
  function ParseValue(s: bytes, i: nat, depth: nat): (r: Option<(Value, nat)>)
    requires i <= |s|
    ensures r.Some? ==> i < r.value.1 <= |s|
    decreases |s| - i, 1
  {
    match ParseBare(s, SpacesEnd(s, i), depth)
    case None => None
    case Some((v, k)) => Some((v, SpacesEnd(s, k)))
  }

  /** A value that starts at `j`, within `depth` arrays and objects. */
  function ParseBare(s: bytes, j: nat, depth: nat): (r: Option<(Value, nat)>)
    requires j <= |s|
    ensures r.Some? ==> j < r.value.1 <= |s|
    decreases |s| - j, 0
  {
    if j >= |s| then None
    else if s[j] == 123 then
      if depth >= MAX_DEPTH then None
      else
        var k := SpacesEnd(s, j + 1);
        if ByteAt(s, k, 125) then Some((Object([]), k + 1))
        else
          match ParseMembers(s, k, depth + 1)
          case None => None
          case Some((ms, e)) => Some((Object(ms), e))
    else if s[j] == 91 then
      if depth >= MAX_DEPTH then None
      else
        var k := SpacesEnd(s, j + 1);
        if ByteAt(s, k, 93) then Some((Array([]), k + 1))
        else
          match ParseElements(s, k, depth + 1)
          case None => None
          case Some((vs, e)) => Some((Array(vs), e))
    else if s[j] == QUOTE then
      match ParseChars(s, j + 1)
      case None => None
      case Some((b, e)) => Some((String(b), e))
    else if s[j] == 45 || IsDigit(s[j]) then ParseNumber(s, j)
    else if s[j] == 116 then ParseWord(s, j, TRUE_WORD, True)
    else if s[j] == 102 then ParseWord(s, j, FALSE_WORD, False)
    else if s[j] == 110 then ParseWord(s, j, NULL_WORD, Null)
    else None
  }

  /** The elements of an array up to its closing bracket. */
  function ParseElements(s: bytes, i: nat, depth: nat): (r: Option<(seq<Value>, nat)>)
    requires i <= |s|
    ensures r.Some? ==> i < r.value.1 <= |s|
    decreases |s| - i, 2
  {
    match ParseValue(s, i, depth)
    case None => None
    case Some((v, j)) =>
      if ByteAt(s, j, 93) then Some(([v], j + 1))
      else if ByteAt(s, j, 44) then
        match ParseElements(s, j + 1, depth)
        case None => None
        case Some((vs, e)) => Some(([v] + vs, e))
      else None
  }

  /** A key, a colon and a value. */
  function ParseMember(s: bytes, i: nat, depth: nat): (r: Option<(Member, nat)>)
    requires i <= |s|
    ensures r.Some? ==> i < r.value.1 <= |s|
    decreases |s| - i, 2
  {
    var j := SpacesEnd(s, i);
    if !ByteAt(s, j, QUOTE) then None
    else
      match ParseChars(s, j + 1)
      case None => None
      case Some((key, e)) =>
        var k := SpacesEnd(s, e);
        if !ByteAt(s, k, 58) then None
        else
          match ParseValue(s, k + 1, depth)
          case None => None
          case Some((v, m)) => Some((Member(key, v), m))
  }

  /** The members of an object up to its closing brace. */
  function ParseMembers(s: bytes, i: nat, depth: nat): (r: Option<(seq<Member>, nat)>)
    requires i <= |s|
    ensures r.Some? ==> i < r.value.1 <= |s|
    decreases |s| - i, 3
  {
    match ParseMember(s, i, depth)
    case None => None
    case Some((m, j)) =>
      if ByteAt(s, j, 125) then Some(([m], j + 1))
      else if ByteAt(s, j, 44) then
        match ParseMembers(s, j + 1, depth)
        case None => None
        case Some((ms, e)) => Some(([m] + ms, e))
      else None
  }

  /** A whole text. */
  function Parse(s: bytes): Option<Value> {
    if |s| > INT_MAX then None
    else
      match ParseValue(s, 0, 0)
      case None => None
      case Some((v, e)) => if e == |s| then Some(v) else None
  }
}

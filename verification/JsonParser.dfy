/**
 * The JSON parser: a cursor that can step back once, a nesting counter, and one method for
 * every kind of value, tried in turn.
 */
module JsonParser {
  import opened Bytes
  import opened Options
  import opened Numerals
  import opened JsonSpec

  const EOF := -1

  /**
   * How an alternative ends, against what the text holds: 0 leaves everything as it was, 1
   * means that the value was read, and -1 that there is none.
   */
  ghost predicate Ends<T>(applies: bool, spec: Option<(T, nat)>, start: nat, ret: int, v: T, pos: nat) {
    && (ret == 0 <==> !applies)
    && (ret == 0 ==> pos == start)
    && (ret == 1 <==> applies && spec.Some?)
    && (ret == 1 ==> spec == Some((v, pos)))
    && (ret == 0 || ret == 1 || ret == -1)
  }

  /** What is still to come of a string, behind what has been read of it. */
  function After(buf: bytes, r: Option<(bytes, nat)>): Option<(bytes, nat)> {
    match r
    case None => None
    case Some((rest, k)) => Some((buf + rest, k))
  }

  function AfterAll<T>(read: seq<T>, r: Option<(seq<T>, nat)>): Option<(seq<T>, nat)> {
    match r
    case None => None
    case Some((rest, k)) => Some((read + rest, k))
  }

  lemma AfterNothing<T>(r: Option<(seq<T>, nat)>)
    ensures AfterAll([], r) == r
  {
    if r.Some? { assert [] + r.value.0 == r.value.0; }
  }

  lemma AfterOneMore<T>(read: seq<T>, x: T, r: Option<(seq<T>, nat)>)
    ensures AfterAll(read, AfterAll([x], r)) == AfterAll(read + [x], r)
  {
    if r.Some? { assert read + ([x] + r.value.0) == read + [x] + r.value.0; }
  }

  class Parser {
    const text: bytes
    var pos: nat
    var canUnput: bool
    var nesting: nat

    ghost predicate Valid()
      reads this
    {
      pos <= |text| && nesting <= MAX_DEPTH
    }

    constructor (text: bytes)
      ensures this.text == text && pos == 0 && !canUnput && nesting == 0 && Valid()
    {
      this.text, pos, canUnput, nesting := text, 0, false, 0;
    }

    method Input() returns (ch: int)
      requires Valid()
      modifies this`pos, this`canUnput
      ensures Valid()
      ensures old(pos) < |text| ==> ch == text[old(pos)] && pos == old(pos) + 1 && canUnput
      ensures old(pos) == |text| ==> ch == EOF && pos == old(pos) && !canUnput
    {
      if pos >= |text| {
        canUnput := false;
        return EOF;
      }
      canUnput := true;
      ch := text[pos];
      pos := pos + 1;
    }

    method Unput()
      requires Valid()
      modifies this`pos, this`canUnput
      ensures Valid() && !canUnput
      ensures pos == if old(canUnput) && old(pos) > 0 then old(pos) - 1 else old(pos)
    {
      if canUnput && pos > 0 {
        pos := pos - 1;
      }
      canUnput := false;
    }

    method SkipWhitespace()
      requires Valid()
      modifies this`pos, this`canUnput
      ensures Valid() && pos == SpacesEnd(text, old(pos))
    {
      var ch := Input();
      while ch != EOF && IsSpace(ch)
        invariant Valid() && ch >= EOF
        invariant ch != EOF ==>
                  0 < pos && canUnput && ch == text[pos - 1] && SpacesEnd(text, old(pos)) == SpacesEnd(text, pos - 1)
        invariant ch == EOF ==> pos == |text| && !canUnput && SpacesEnd(text, old(pos)) == pos
        decreases |text| - pos, ch
      {
        ch := Input();
      }
      Unput();
    }

    method EnterNesting() returns (ok: bool)
      requires Valid()
      modifies this`nesting
      ensures Valid() && ok == (old(nesting) < MAX_DEPTH)
      ensures nesting == if ok then old(nesting) + 1 else old(nesting)
    {
      nesting := nesting + 1;
      if nesting > MAX_DEPTH {
        nesting := nesting - 1;
        return false;
      }
      ok := true;
    }

    method LeaveNesting()
      requires Valid()
      modifies this`nesting
      ensures Valid() && nesting == if old(nesting) > 0 then old(nesting) - 1 else 0
    {
      if nesting > 0 {
        nesting := nesting - 1;
      }
    }

    // ----- Strings

    method ParseHex4() returns (code: Option<nat>)
      requires Valid()
      modifies this`pos, this`canUnput
      ensures Valid() && code == HexUnit(text, old(pos)) && pos >= old(pos)
      ensures code.Some? ==> pos == old(pos) + 4
    {
      hide HexUnit;
      var value := 0;
      var i := 0;
      ghost var start := pos;
      while i < 4
        invariant 0 <= i <= 4 && Valid() && pos == start + i
        invariant forall k :: start <= k < pos ==> IsDigitIn(text[k], 16)
        invariant i >= 1 ==> pos > start
        invariant value == HexPrefix(text, start, i)
      {
        var ch := Input();
        if ch == EOF {
          NoFourDigits(text, start, i);
          return None;
        }
        var digit := DigitValue(ch);
        if digit.None? {
          NoFourDigits(text, start, i);
          return None;
        }
        value := 16 * value + digit.value;
        i := i + 1;
      }
      FourDigits(text, start);
      code := Some(value);
    }

    method ParseEscape() returns (r: Option<bytes>)
      requires Valid()
      modifies this`pos, this`canUnput
      ensures Valid() && pos >= old(pos)
      ensures r.Some? <==> JsonSpec.ParseEscape(text, old(pos)).Some?
      ensures r.Some? ==> JsonSpec.ParseEscape(text, old(pos)) == Some((r.value, pos))
    {
      hide HexUnit, Utf8;
      var ch := Input();
      if ch == EOF {
        return None;
      }
      if ShortEscape(ch).Some? {
        return Some([ShortEscape(ch).value]);
      }
      if ch != 117 {
        return None;
      }
      var unit := ParseHex4();
      if unit.None? {
        return None;
      }
      var code := unit.value;
      if IsHighSurrogate(code) {
        ch := Input();
        if ch != BACKSLASH as int {
          return None;
        }
        ch := Input();
        if ch != 117 {
          return None;
        }
        var low := ParseHex4();
        if low.None? || !IsLowSurrogate(low.value) {
          return None;
        }
        code := FromPair(code, low.value);
      } else if IsLowSurrogate(code) {
        return None;
      }
      r := Some(Utf8(code));
    }

    method ParseString() returns (ret: int, s: bytes)
      requires Valid()
      modifies this`pos, this`canUnput
      ensures Valid() && pos >= old(pos)
      ensures Ends(ByteAt(text, old(pos), QUOTE), ParseChars(text, Min(old(pos) + 1, |text|)), old(pos), ret, s, pos)
    {
      hide JsonSpec.ParseEscape;
      var ch := Input();
      if ch != QUOTE as int {
        Unput();
        return 0, [];
      }
      s := [];
      ghost var r := ParseChars(text, pos);
      assert After([], r) == r by { if r.Some? { assert [] + r.value.0 == r.value.0; } }
      while true
        invariant Valid() && pos >= old(pos) + 1
        invariant r == After(s, ParseChars(text, pos))
        decreases |text| - pos
      {
        ghost var at := pos;
        ch := Input();
        if ch == EOF {
          return -1, s;
        }
        if ch == QUOTE as int {
          assert s + [] == s;
          return 1, s;
        }
        if ch == BACKSLASH as int {
          var b := ParseEscape();
          if b.None? {
            return -1, s;
          }
          AfterBoth(s, b.value, ParseChars(text, pos));
          s := s + b.value;
          continue;
        }
        if ch < 0x20 {
          return -1, s;
        }
        AfterBoth(s, [ch], ParseChars(text, pos));
        s := s + [ch];
      }
    }

    // ----- Numbers and words

    /** `ch` is the character at `at`, already taken; or the text ends there. */
    ghost predicate Looking(ch: int, at: nat)
      reads this
    {
      && at <= |text|
      && (at < |text| ==> ch == text[at] as int && pos == at + 1 && canUnput)
      && (at == |text| ==> ch == EOF && pos == at && !canUnput)
    }

    /** The digits behind the one just taken. */
    method SkipDigits() returns (ch: int)
      requires Valid() && 0 < pos && IsDigit(text[pos - 1])
      modifies this`pos, this`canUnput
      ensures Valid() && pos >= old(pos) && Looking(ch, DigitsEnd(text, old(pos) - 1, 10))
    {
      ghost var start := pos - 1;
      ch := Input();
      while ch != EOF && IsDigit(ch)
        invariant Valid() && pos >= start + 1
        invariant ch != EOF ==> Looking(ch, pos - 1) && DigitsEnd(text, start, 10) == DigitsEnd(text, pos - 1, 10)
        invariant ch == EOF ==> Looking(ch, pos) && DigitsEnd(text, start, 10) == pos == |text|
        invariant EOF <= ch < 256
        decreases |text| - pos, ch
      {
        ch := Input();
      }
    }

    method SkipWhole(first: int, ghost at: nat) returns (r: Option<int>)
      requires Valid() && Looking(first, at)
      modifies this`pos, this`canUnput
      ensures Valid() && pos >= old(pos)
      ensures r.Some? <==> WholeEnd(text, at).Some?
      ensures r.Some? ==> Looking(r.value, WholeEnd(text, at).value)
    {
      if first == EOF || !IsDigit(first) {
        return None;
      }
      if first == 48 {
        var ch := Input();
        return if ch != EOF && IsDigit(ch) then None else Some(ch);
      }
      var ch := SkipDigits();
      r := Some(ch);
    }

    method SkipFraction(first: int, ghost at: nat) returns (r: Option<int>)
      requires Valid() && Looking(first, at)
      modifies this`pos, this`canUnput
      ensures Valid() && pos >= old(pos)
      ensures r.Some? <==> FractionEnd(text, at).Some?
      ensures r.Some? ==> Looking(r.value, FractionEnd(text, at).value)
    {
      if first != 46 {
        return Some(first);
      }
      var ch := Input();
      if ch == EOF || !IsDigit(ch) {
        return None;
      }
      ch := SkipDigits();
      r := Some(ch);
    }

    method SkipExponent(first: int, ghost at: nat) returns (r: Option<int>)
      requires Valid() && Looking(first, at)
      modifies this`pos, this`canUnput
      ensures Valid() && pos >= old(pos)
      ensures r.Some? <==> ExponentEnd(text, at).Some?
      ensures r.Some? ==> Looking(r.value, ExponentEnd(text, at).value)
    {
      if first != 101 && first != 69 {
        return Some(first);
      }
      var ch := Input();
      if ch == 43 || ch == 45 {
        ch := Input();
      }
      if ch == EOF || !IsDigit(ch) {
        return None;
      }
      ch := SkipDigits();
      r := Some(ch);
    }

    /** The shape of a number: afterwards the cursor is right behind it. */
    method SkipNumber(first: int) returns (ok: bool)
      requires Valid() && 0 < pos && Looking(first, pos - 1) && (first == 45 || IsDigit(first))
      modifies this`pos, this`canUnput
      ensures Valid() && pos >= old(pos)
      ensures ok <==> NumberEnd(text, old(pos) - 1).Some?
      ensures ok ==> pos == NumberEnd(text, old(pos) - 1).value
    {
      hide DigitsEnd, WholeEnd, FractionEnd, ExponentEnd;
      ghost var start := pos - 1;
      var ch := first;
      if ch == 45 {
        ch := Input();
      }
      var r := SkipWhole(ch, WholeStart(text, start));
      if r.None? {
        return false;
      }
      ghost var k := WholeEnd(text, WholeStart(text, start)).value;
      r := SkipFraction(r.value, k);
      if r.None? {
        return false;
      }
      ghost var m := FractionEnd(text, k).value;
      r := SkipExponent(r.value, m);
      if r.None? {
        return false;
      }
      if r.value != EOF {
        Unput();
      }
      ok := true;
    }

    method ParseNumber() returns (ret: int, v: Value)
      requires Valid()
      modifies this`pos, this`canUnput
      ensures Valid() && pos >= old(pos)
      ensures Ends(ByteAt(text, old(pos), 45) || DigitAt(text, old(pos)), JsonSpec.ParseNumber(text, old(pos)),
                   old(pos), ret, v, pos)
    {
      hide Strtod, Finite, NumberEnd;
      var ch := Input();
      if ch != 45 && (ch == EOF || !IsDigit(ch)) {
        Unput();
        return 0, Null;
      }
      var start := pos - 1;
      var ok := SkipNumber(ch);
      if !ok {
        return -1, Null;
      }
      var x := Strtod(text[start..pos]);
      if !Finite(x) {
        return -1, Null;
      }
      return 1, Number(x);
    }

    method ParseKeyword() returns (ret: int, v: Value)
      requires Valid()
      modifies this`pos, this`canUnput
      ensures Valid() && pos >= old(pos)
      ensures Ends(WordAt(text, old(pos)).Some?, WordParses(text, old(pos)), old(pos), ret, v, pos)
    {
      ghost var start := pos;
      var ch := Input();
      var word;
      if ch == 116 {
        word, v := TRUE_WORD, True;
      } else if ch == 102 {
        word, v := FALSE_WORD, False;
      } else if ch == 110 {
        word, v := NULL_WORD, Null;
      } else {
        Unput();
        return 0, Null;
      }
      assert WordAt(text, start) == Some((word, v)) && text[start..pos] == word[..1];
      hide WordAt, WordParses, TRUE_WORD, FALSE_WORD, NULL_WORD;
      var i := 1;
      while i < |word|
        invariant 1 <= i <= |word| && Valid() && pos == start + i
        invariant text[start..pos] == word[..i]
      {
        ch := Input();
        if ch == EOF || ch != word[i] as int {
          WordBreaks(text, start, word, v, i);
          return -1, v;
        }
        WordGrows(text, start, word, i);
        i := i + 1;
      }
      WordReads(text, start, word, v);
      ret := 1;
    }

    // ----- Values

    /** `json_parse_value`: the alternatives in turn; each that does not apply costs nothing. */
    method ParseValue() returns (ret: int, v: Value)
      requires Valid()
      modifies this`pos, this`canUnput, this`nesting
      ensures Valid() && pos >= old(pos) && nesting == old(nesting)
      ensures Ends(true, JsonSpec.ParseValue(text, old(pos), old(nesting)), old(pos), ret, v, pos)
      decreases |text| - pos, 1
    {
      hide JsonSpec.ParseNumber, ParseChars, JsonSpec.ParseMembers, ParseElements, JsonSpec.ParseWord, SpacesEnd;
      SkipWhitespace();
      ghost var at := pos;
      ret, v := ParseObject();
      if ret == 0 {
        ret, v := ParseArray();
      }
      if ret == 0 {
        var s;
        ret, s := ParseString();
        v := String(s);
      }
      if ret == 0 {
        ret, v := ParseNumber();
      }
      if ret == 0 {
        ret, v := ParseKeyword();
      }
      if ret == 0 {
        return -1, v;
      }
      SkipWhitespace();
    }

    method ParseArray() returns (ret: int, v: Value)
      requires Valid()
      modifies this`pos, this`canUnput, this`nesting
      ensures Valid() && pos >= old(pos) && nesting == old(nesting)
      ensures Ends(ByteAt(text, old(pos), 91), ParseBare(text, old(pos), old(nesting)), old(pos), ret, v, pos)
      decreases |text| - pos, 0
    {
      hide JsonSpec.ParseNumber, ParseChars, JsonSpec.ParseMembers, JsonSpec.ParseElements, JsonSpec.ParseWord,
          SpacesEnd;
      v := Array([]);
      var ch := Input();
      if ch != 91 {
        Unput();
        return 0, v;
      }
      var ok := EnterNesting();
      if !ok {
        return -1, v;
      }
      SkipWhitespace();
      ch := Input();
      if ch == 93 {
        LeaveNesting();
        return 1, v;
      }
      Unput();
      var items;
      ret, items := ParseElementsHere();
      LeaveNesting();
      if ret <= 0 {
        return -1, v;
      }
      return 1, Array(items);
    }

    /** The loop of `ParseArray`, up to the closing character. */
    method ParseElementsHere() returns (ret: int, items: seq<Value>)
      requires Valid()
      modifies this`pos, this`canUnput, this`nesting
      ensures Valid() && pos >= old(pos) && nesting == old(nesting)
      ensures Ends(true, JsonSpec.ParseElements(text, old(pos), old(nesting)), old(pos), ret, items, pos)
      decreases |text| - pos, 2
    {
      hide ParseChars, ParseBare, JsonSpec.ParseValue, SpacesEnd;
      items := [];
      ghost var start := pos;
      AfterNothing(JsonSpec.ParseElements(text, start, nesting));
      while true
        invariant Valid() && pos >= start && nesting == old(nesting)
        invariant JsonSpec.ParseElements(text, start, nesting)
          == AfterAll(items, JsonSpec.ParseElements(text, pos, nesting))
        decreases |text| - pos
      {
        ghost var at := pos;
        var item;
        ret, item := ParseValue();
        if ret <= 0 {
          return -1, items;
        }
        var ch := Input();
        if ch == 93 {
          return 1, items + [item];
        }
        if ch != 44 {
          return -1, items;
        }
        assert JsonSpec.ParseElements(text, at, nesting)
            == AfterAll([item], JsonSpec.ParseElements(text, pos, nesting));
        AfterOneMore(items, item, JsonSpec.ParseElements(text, pos, nesting));
        items := items + [item];
      }
    }

    method ParseObject() returns (ret: int, v: Value)
      requires Valid()
      modifies this`pos, this`canUnput, this`nesting
      ensures Valid() && pos >= old(pos) && nesting == old(nesting)
      ensures Ends(ByteAt(text, old(pos), 123), ParseBare(text, old(pos), old(nesting)), old(pos), ret, v, pos)
      decreases |text| - pos, 0
    {
      hide JsonSpec.ParseNumber, ParseChars, JsonSpec.ParseElements, JsonSpec.ParseMembers, JsonSpec.ParseWord,
          SpacesEnd;
      v := Object([]);
      var ch := Input();
      if ch != 123 {
        Unput();
        return 0, v;
      }
      var ok := EnterNesting();
      if !ok {
        return -1, v;
      }
      SkipWhitespace();
      ch := Input();
      if ch == 125 {
        LeaveNesting();
        return 1, v;
      }
      Unput();
      var members;
      ret, members := ParseMembersHere();
      LeaveNesting();
      if ret <= 0 {
        return -1, v;
      }
      return 1, Object(members);
    }

    /** The loop of `ParseObject`, up to the closing character. */
    method ParseMembersHere() returns (ret: int, members: seq<Member>)
      requires Valid()
      modifies this`pos, this`canUnput, this`nesting
      ensures Valid() && pos >= old(pos) && nesting == old(nesting)
      ensures Ends(true, JsonSpec.ParseMembers(text, old(pos), old(nesting)), old(pos), ret, members, pos)
      decreases |text| - pos, 3
    {
      hide ParseChars, ParseBare, JsonSpec.ParseMember, SpacesEnd;
      members := [];
      ghost var start := pos;
      AfterNothing(JsonSpec.ParseMembers(text, start, nesting));
      while true
        invariant Valid() && pos >= start && nesting == old(nesting)
        invariant JsonSpec.ParseMembers(text, start, nesting)
          == AfterAll(members, JsonSpec.ParseMembers(text, pos, nesting))
        decreases |text| - pos
      {
        ghost var at := pos;
        var member;
        ret, member := ParseProperty();
        if ret <= 0 {
          return -1, members;
        }
        var ch := Input();
        if ch == 125 {
          return 1, members + [member];
        }
        if ch != 44 {
          return -1, members;
        }
        assert JsonSpec.ParseMembers(text, at, nesting)
            == AfterAll([member], JsonSpec.ParseMembers(text, pos, nesting));
        AfterOneMore(members, member, JsonSpec.ParseMembers(text, pos, nesting));
        members := members + [member];
      }
    }

    method ParseProperty() returns (ret: int, m: Member)
      requires Valid()
      modifies this`pos, this`canUnput, this`nesting
      ensures Valid() && pos >= old(pos) && nesting == old(nesting)
      ensures Ends(true, ParseMember(text, old(pos), old(nesting)), old(pos), ret, m, pos)
      decreases |text| - pos, 2
    {
      hide ParseChars, JsonSpec.ParseValue, SpacesEnd;
      m := Member([], Null);
      SkipWhitespace();
      var key;
      ret, key := ParseString();
      if ret <= 0 {
        return -1, m;
      }
      SkipWhitespace();
      var ch := Input();
      if ch != 58 {
        return -1, m;
      }
      var v;
      ret, v := ParseValue();
      if ret <= 0 {
        return -1, m;
      }
      return 1, Member(key, v);
    }
  }

  /** The word that the character at `i` announces. */
  function WordAt(s: bytes, i: nat): Option<(bytes, Value)> {
    if i >= |s| then None
    else if s[i] == 116 then Some((TRUE_WORD, True))
    else if s[i] == 102 then Some((FALSE_WORD, False))
    else if s[i] == 110 then Some((NULL_WORD, Null))
    else None
  }

  function WordParses(s: bytes, i: nat): Option<(Value, nat)> {
    match WordAt(s, i)
    case None => None
    case Some((word, v)) => ParseWord(s, i, word, v)
  }

  lemma WordGrows(s: bytes, at: nat, word: bytes, i: nat)
    requires i < |word| && at + i < |s| && s[at..at + i] == word[..i] && s[at + i] == word[i]
    ensures s[at..at + i + 1] == word[..i + 1]
  {
    assert s[at..at + i + 1] == s[at..at + i] + [s[at + i]];
  }

  lemma WordReads(s: bytes, i: nat, word: bytes, v: Value)
    requires WordAt(s, i) == Some((word, v)) && i + |word| <= |s| && s[i..i + |word|] == word
    ensures WordParses(s, i) == Some((v, i + |word|))
  {
  }

  lemma WordBreaks(s: bytes, i: nat, word: bytes, v: Value, k: nat)
    requires WordAt(s, i) == Some((word, v)) && k < |word| && (i + k >= |s| || s[i + k] != word[k])
    ensures WordParses(s, i).None?
  {
    if i + |word| <= |s| { assert s[i..i + |word|][k] == s[i + k]; }
  }

  /** `json_parse_buf` */
  method ParseBuffer(text: bytes) returns (root: Option<Value>)
    ensures root == Parse(text)
  {
    hide JsonSpec.ParseValue;
    if |text| > INT_MAX {
      return None;
    }
    var parser := new Parser(text);
    var ret, v := parser.ParseValue();
    if ret != 1 {
      return None;
    }
    ghost var end := parser.pos;
    parser.SkipWhitespace();
    SpacesSkipped(text, 0);
    var ch := parser.Input();
    root := if ch == EOF then Some(v) else None;
  }

  /** White space is skipped once and for all. */
  lemma SpacesSkipped(s: bytes, depth: nat)
    ensures ParseValueEnd(s, depth).Some? ==>
              SpacesEnd(s, ParseValueEnd(s, depth).value) == ParseValueEnd(s, depth).value
  {
    hide ParseBare;
    match ParseBare(s, SpacesEnd(s, 0), depth)
    case None =>
    case Some((v, k)) => SpacesOnce(s, k);
  }

  function ParseValueEnd(s: bytes, depth: nat): (r: Option<nat>)
    ensures r.Some? ==> r.value <= |s|
  {
    match JsonSpec.ParseValue(s, 0, depth)
    case None => None
    case Some((_, e)) => Some(e)
  }

  lemma AfterBoth(a: bytes, b: bytes, r: Option<(bytes, nat)>)
    ensures After(a, After(b, r)) == After(a + b, r)
  {
    if r.Some? { assert a + (b + r.value.0) == a + b + r.value.0; }
  }

  function DigitOr0(s: bytes, i: nat): (d: nat)
  {
    if i < |s| && DigitValue(s[i]).Some? then DigitValue(s[i]).value else 0
  }

  lemma FourDigits(s: bytes, i: nat)
    requires i + 4 <= |s| && forall k :: i <= k < i + 4 ==> IsDigitIn(s[k], 16)
    ensures HexUnit(s, i) == Some(HexPrefix(s, i, 4))
  {
    var a, b, c, d := DigitOr0(s, i), DigitOr0(s, i + 1), DigitOr0(s, i + 2), DigitOr0(s, i + 3);
    assert HexUnit(s, i) == Some(4096 * a + 256 * b + 16 * c + d);
    hide HexUnit, DigitOr0;
    assert HexPrefix(s, i, 1) == a;
    assert HexPrefix(s, i, 2) == 16 * a + b;
    assert HexPrefix(s, i, 3) == 256 * a + 16 * b + c;
    assert HexPrefix(s, i, 4) == 16 * HexPrefix(s, i, 3) + d;
  }

  lemma NoFourDigits(s: bytes, i: nat, n: nat)
    requires n < 4 && (i + n >= |s| || DigitValue(s[i + n]).None?)
    ensures HexUnit(s, i).None?
  {
    if i + 4 <= |s| { assert !IsDigitIn(s[i + n], 16); }
  }

  /** The value of the first `n` hexadecimal digits. */
  function HexPrefix(s: bytes, i: nat, n: nat): nat {
    if n == 0 then 0 else 16 * HexPrefix(s, i, n - 1) + DigitOr0(s, i + n - 1)
  }
}

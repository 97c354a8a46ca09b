/** Partition names: UTF-16 units, their code points, and the UTF-8 that is made of them. */
module Utf16 {
  import opened Bytes
  import opened Options
  import opened JsonSpec

  const REPLACEMENT := 0xFFFD

  predicate IsUnit(u: nat) { u < 0x10000 }

  predicate AreUnits(units: seq<nat>) { forall i :: 0 <= i < |units| ==> IsUnit(units[i]) }

  /**
   * The code point at `i` and where the next one starts; a high surrogate takes its neighbour with
   * it, whatever it is.
   */
  function CodePointAt(units: seq<nat>, i: nat): (r: (nat, nat))
    requires AreUnits(units) && i < |units|
    ensures i < r.1 <= |units| && r.1 <= i + 2 && r.0 <= 0x10FFFF && (r.1 == i + 1 ==> r.0 <= 0xFFFF)
  {
    var w := units[i];
    if IsHighSurrogate(w) then
      if i + 1 >= |units| then (REPLACEMENT, i + 1)
      else if IsLowSurrogate(units[i + 1]) then (FromPair(w, units[i + 1]), i + 2)
      else (REPLACEMENT, i + 2)
    else if IsLowSurrogate(w) then (REPLACEMENT, i + 1)
    else (w, i + 1)
  }

  /** The code points from `i` up to the first NUL. */
  function CodePoints(units: seq<nat>, i: nat): (r: seq<nat>)
    requires AreUnits(units) && i <= |units|
    ensures forall k :: 0 <= k < |r| ==> 0 < r[k] <= 0x10FFFF
    decreases |units| - i
  {
    if i == |units| then []
    else
      var (cp, next) := CodePointAt(units, i);
      if cp == 0 then [] else [cp] + CodePoints(units, next)
  }

  function Encode(cps: seq<nat>): bytes
    requires forall k :: 0 <= k < |cps| ==> cps[k] <= 0x10FFFF
  {
    if |cps| == 0 then [] else Utf8(cps[0]) + Encode(cps[1..])
  }

  /** As many of the encodings, from the front, as fit into `room` bytes with a NUL behind them. */
  function Fitted(cps: seq<nat>, room: nat): (r: bytes)
    requires room > 0 && forall k :: 0 <= k < |cps| ==> cps[k] <= 0x10FFFF
    ensures |r| < room
  {
    if |cps| == 0 || |Utf8(cps[0])| >= room then []
    else Utf8(cps[0]) + Fitted(cps[1..], room - |Utf8(cps[0])|)
  }

  /** Write a byte at `j`. */
  method Store(b: byte, out: array<byte>, j: nat) returns (j': nat)
    requires j < out.Length
    modifies out
    ensures j' == j + 1 && out[..j'] == old(out[..j]) + [b]
  {
    out[j] := b;
    j' := j + 1;
    assert out[..j'] == out[..j] + [b];
  }

  /** The masks of the source keep all the bits there are. */
  lemma MaskedIsUtf8(cp: nat)
    requires cp <= 0x10FFFF
    ensures cp <= 0x7F ==> Utf8(cp) == [cp]
    ensures 0x7F < cp <= 0x7FF ==> Utf8(cp) == [0xC0 + cp / 64 % 32, 0x80 + cp % 64]
    ensures 0x7FF < cp <= 0xFFFF ==> Utf8(cp) == [0xE0 + cp / 4096 % 16, 0x80 + cp / 64 % 64, 0x80 + cp % 64]
    ensures 0xFFFF < cp ==>
              Utf8(cp) == [0xF0 + cp / 262144 % 8, 0x80 + cp / 4096 % 64, 0x80 + cp / 64 % 64, 0x80 + cp % 64]
  {
  }

  /** Write two bytes at `j`. */
  method StoreTwo(b: byte, c: byte, out: array<byte>, j: nat) returns (j': nat)
    requires j + 1 < out.Length
    modifies out
    ensures j' == j + 2 && out[..j'] == old(out[..j]) + [b, c]
  {
    ghost var before := out[..j];
    j' := Store(b, out, j);
    j' := Store(c, out, j');
    assert before + [b] + [c] == before + [b, c];
  }

  /** Write the encoding of a code point at `j`. */
  method Put(cp: nat, out: array<byte>, j: nat) returns (j': nat)
    requires cp <= 0x10FFFF && j + |Utf8(cp)| < out.Length
    modifies out
    ensures j' == j + |Utf8(cp)| && out[..j'] == old(out[..j]) + Utf8(cp)
  {
    hide Utf8;
    ghost var before := out[..j];
    MaskedIsUtf8(cp);
    if cp <= 0x7F {
      j' := Store(cp, out, j);
    } else if cp <= 0x7FF {
      j' := StoreTwo(0xC0 + cp / 64 % 32, 0x80 + cp % 64, out, j);
    } else if cp <= 0xFFFF {
      j' := Store(0xE0 + cp / 4096 % 16, out, j);
      j' := StoreTwo(0x80 + cp / 64 % 64, 0x80 + cp % 64, out, j');
      JoinBytes(before, [Utf8(cp)[0]], Utf8(cp)[1..]);
    } else {
      j' := StoreTwo(0xF0 + cp / 262144 % 8, 0x80 + cp / 4096 % 64, out, j);
      j' := StoreTwo(0x80 + cp / 64 % 64, 0x80 + cp % 64, out, j');
      JoinBytes(before, Utf8(cp)[..2], Utf8(cp)[2..]);
    }
  }

  lemma JoinBytes(a: bytes, b: bytes, c: bytes)
    ensures a + b + c == a + (b + c)
  {
  }

  /** `utf16le_to_utf8` */
  method Utf16ToUtf8(units: seq<nat>, out: array<byte>) returns (len: nat)
    requires AreUnits(units) && out.Length > 0
    modifies out
    ensures len < out.Length && out[..len] == Fitted(CodePoints(units, 0), out.Length) && out[len] == 0
  {
    hide Utf8, Fitted;
    var i: nat, j: nat := 0, 0;
    assert out[..0] == [];
    while i < |units|
      invariant i <= |units| && j < out.Length
      invariant out[..j] + Fitted(CodePoints(units, i), out.Length - j) == Fitted(CodePoints(units, 0), out.Length)
      decreases |units| - i
    {
      var (cp, next) := CodePointAt(units, i);
      FittedStep(units, i, out.Length - j);
      if cp == 0 || |Utf8(cp)| >= out.Length - j {
        break;
      }
      ghost var before := out[..j];
      j := Put(cp, out, j);
      i := next;
      assert before + Utf8(cp) + Fitted(CodePoints(units, i), out.Length - j)
          == before + (Utf8(cp) + Fitted(CodePoints(units, i), out.Length - j));
    }
    assert out[..j] == Fitted(CodePoints(units, 0), out.Length) by {
      if i == |units| { FittedEnd(units, out.Length - j); }
    }
    out[j] := 0;
    len := j;
  }

  lemma FittedStep(units: seq<nat>, i: nat, room: nat)
    requires AreUnits(units) && i < |units| && room > 0
    ensures var (cp, next) := CodePointAt(units, i);
            && (cp == 0 || |Utf8(cp)| >= room ==> Fitted(CodePoints(units, i), room) == [])
            && (cp > 0 && |Utf8(cp)| < room ==>
                  Fitted(CodePoints(units, i), room) == Utf8(cp) + Fitted(CodePoints(units, next), room - |Utf8(cp)|))
  {
    hide Utf8;
  }

  lemma FittedEnd(units: seq<nat>, room: nat)
    requires AreUnits(units) && room > 0
    ensures Fitted(CodePoints(units, |units|), room) == []
  {
  }

  // ----- Nothing is cut off

  /** A unit becomes at most three bytes, a pair four. */
  lemma {:induction false} EncodingIsShort(units: seq<nat>, i: nat)
    requires AreUnits(units) && i <= |units|
    ensures |Encode(CodePoints(units, i))| <= 3 * (|units| - i)
    decreases |units| - i
  {
    hide FromPair;
    if i < |units| {
      var (cp, next) := CodePointAt(units, i);
      EncodingIsShort(units, next);
    }
  }

  lemma {:induction false} FitsWhole(cps: seq<nat>, room: nat)
    requires room > 0 && forall k :: 0 <= k < |cps| ==> cps[k] <= 0x10FFFF
    requires |Encode(cps)| < room
    ensures Fitted(cps, room) == Encode(cps)
  {
    hide Utf8;
    if |cps| > 0 { FitsWhole(cps[1..], room - |Utf8(cps[0])|); }
  }

  /** With room for more than three bytes a unit, the name comes out whole. */
  lemma NeverTruncated(units: seq<nat>, room: nat)
    requires AreUnits(units) && room > 3 * |units|
    ensures Fitted(CodePoints(units, 0), room) == Encode(CodePoints(units, 0))
  {
    EncodingIsShort(units, 0);
    FitsWhole(CodePoints(units, 0), room);
  }

  lemma {:induction false} EncodingHasNoNul(cps: seq<nat>)
    requires forall k :: 0 <= k < |cps| ==> 0 < cps[k] <= 0x10FFFF
    ensures NoNul(Encode(cps))
  {
    if |cps| > 0 {
      EncodingHasNoNul(cps[1..]);
      assert NoNul(Utf8(cps[0]));
    }
  }

  // ----- Well-formed names

  /** A code point that is no surrogate. */
  predicate IsScalar(cp: nat) { cp <= 0x10FFFF && !(0xD800 <= cp <= 0xDFFF) }

  /** The UTF-16 units of a code point (section 2.1 of RFC 2781). */
  function UnitsOf(cp: nat): (r: seq<nat>)
    requires IsScalar(cp)
    ensures 1 <= |r| <= 2 && AreUnits(r)
  {
    if cp < 0x10000 then [cp] else [0xD800 + (cp - 0x10000) / 1024, 0xDC00 + (cp - 0x10000) % 1024]
  }

  predicate AreNameScalars(cps: seq<nat>) { forall k :: 0 <= k < |cps| ==> cps[k] > 0 && IsScalar(cps[k]) }

  function AllUnits(cps: seq<nat>): (r: seq<nat>)
    requires AreNameScalars(cps)
    ensures AreUnits(r)
  {
    if |cps| == 0 then [] else UnitsOf(cps[0]) + AllUnits(cps[1..])
  }

  /** The units of a code point are read as that code point, and what follows them follows. */
  lemma UnitsRead(units: seq<nat>, i: nat, cp: nat, rest: seq<nat>)
    requires AreUnits(units) && IsScalar(cp) && i + |UnitsOf(cp) + rest| <= |units|
    requires units[i..i + |UnitsOf(cp) + rest|] == UnitsOf(cp) + rest
    ensures CodePointAt(units, i) == (cp, i + |UnitsOf(cp)|)
    ensures units[i + |UnitsOf(cp)|..i + |UnitsOf(cp)| + |rest|] == rest
  {
    hide FromPair;
    var u := UnitsOf(cp);
    var whole := units[i..i + |u + rest|];
    assert units[i] == whole[0] == u[0];
    assert |u| == 2 ==> units[i + 1] == whole[1] == u[1];
    assert units[i + |u|..i + |u| + |rest|] == whole[|u|..] == rest;
    PairBack(cp);
  }

  lemma NameEnds(units: seq<nat>, i: nat)
    requires AreUnits(units) && i <= |units| && (i < |units| ==> units[i] == 0)
    ensures CodePoints(units, i) == []
  {
  }

  /** The code points of a well-formed name come back, from wherever its units stand up to a NUL or the end. */
  lemma {:induction false} NameDecodes(units: seq<nat>, i: nat, cps: seq<nat>)
    requires AreUnits(units) && AreNameScalars(cps) && i + |AllUnits(cps)| <= |units|
    requires units[i..i + |AllUnits(cps)|] == AllUnits(cps)
    requires i + |AllUnits(cps)| < |units| ==> units[i + |AllUnits(cps)|] == 0
    ensures CodePoints(units, i) == cps
    decreases |cps|
  {
    hide CodePointAt, UnitsOf;
    if |cps| > 0 {
      assert IsScalar(cps[0]);
      UnitsRead(units, i, cps[0], AllUnits(cps[1..]));
      NameDecodes(units, i + |UnitsOf(cps[0])|, cps[1..]);
    } else {
      NameEnds(units, i);
    }
  }

  lemma PairBack(cp: nat)
    requires IsScalar(cp)
    ensures cp >= 0x10000 ==> IsHighSurrogate(UnitsOf(cp)[0]) && IsLowSurrogate(UnitsOf(cp)[1])
                              && FromPair(UnitsOf(cp)[0], UnitsOf(cp)[1]) == cp
  {
  }

  /** A well-formed name, NUL-terminated or filling the field, becomes the UTF-8 of its code points, whole. */
  lemma NameSurvives(units: seq<nat>, cps: seq<nat>, room: nat)
    requires AreUnits(units) && AreNameScalars(cps) && AllUnits(cps) <= units && room > 3 * |units|
    requires |AllUnits(cps)| < |units| ==> units[|AllUnits(cps)|] == 0
    ensures Fitted(CodePoints(units, 0), room) == Encode(cps) && NoNul(Encode(cps))
  {
    NameDecodes(units, 0, cps);
    NeverTruncated(units, room);
    EncodingHasNoNul(cps);
  }

  // ----- The encoding says which code points it is of

  predicate IsTrail(b: byte) { 0x80 <= b < 0xC0 }

  /** The bits of a trailing byte. */
  function Low(b: byte): int { b as int - 0x80 }

  /** The code point whose UTF-8 stands at the front, and its length (section 3 of RFC 3629). */
  function DecodeOne(s: bytes): Option<(int, nat)> {
    if |s| == 0 then None
    else if s[0] < 0x80 then Some((s[0], 1))
    else if 0xC0 <= s[0] < 0xE0 && |s| >= 2 && IsTrail(s[1]) then Some(((s[0] as int - 0xC0) * 64 + Low(s[1]), 2))
    else if 0xE0 <= s[0] < 0xF0 && |s| >= 3 && IsTrail(s[1]) && IsTrail(s[2]) then
      Some(((s[0] as int - 0xE0) * 4096 + Low(s[1]) * 64 + Low(s[2]), 3))
    else if 0xF0 <= s[0] && |s| >= 4 && IsTrail(s[1]) && IsTrail(s[2]) && IsTrail(s[3]) then
      Some(((s[0] as int - 0xF0) * 262144 + Low(s[1]) * 4096 + Low(s[2]) * 64 + Low(s[3]), 4))
    else None
  }

  lemma Digits64(cp: nat)
    ensures cp == cp / 64 * 64 + cp % 64
    ensures cp == cp / 4096 * 4096 + cp / 64 % 64 * 64 + cp % 64
    ensures cp == cp / 262144 * 262144 + cp / 4096 % 64 * 4096 + cp / 64 % 64 * 64 + cp % 64
  {
    assert cp / 64 / 64 == cp / 4096 && cp / 4096 / 64 == cp / 262144;
  }

  lemma OneDecodes(cp: nat, rest: bytes)
    requires cp <= 0x10FFFF
    ensures DecodeOne(Utf8(cp) + rest) == Some((cp as int, |Utf8(cp)|))
  {
    Digits64(cp);
    var u := Utf8(cp);
    var s := u + rest;
    if |u| == 1 {
      assert s[0] == u[0];
    } else if |u| == 2 {
      assert s[0] == u[0] && s[1] == u[1];
    } else if |u| == 3 {
      assert s[0] == u[0] && s[1] == u[1] && s[2] == u[2];
    } else {
      assert s[0] == u[0] && s[1] == u[1] && s[2] == u[2] && s[3] == u[3];
    }
  }

  /** Names are equal exactly when their code points are. */
  lemma {:induction false} EncodingIsInjective(a: seq<nat>, b: seq<nat>)
    requires forall k :: 0 <= k < |a| ==> a[k] <= 0x10FFFF
    requires forall k :: 0 <= k < |b| ==> b[k] <= 0x10FFFF
    ensures Encode(a) == Encode(b) <==> a == b
  {
    hide Utf8, DecodeOne;
    if Encode(a) == Encode(b) {
      if |a| > 0 { OneDecodes(a[0], Encode(a[1..])); }
      if |b| > 0 { OneDecodes(b[0], Encode(b[1..])); }
      if |a| > 0 && |b| > 0 {
        assert a[0] == b[0];
        assert Encode(a[1..]) == Encode(a)[|Utf8(a[0])|..];
        assert Encode(b[1..]) == Encode(b)[|Utf8(b[0])|..];
        EncodingIsInjective(a[1..], b[1..]);
        assert a == [a[0]] + a[1..] && b == [b[0]] + b[1..];
      }
    }
  }

  /** A surrogate without its partner becomes U+FFFD; a high one takes its neighbour with it. */
  lemma UnpairedReplaced(units: seq<nat>, i: nat)
    requires AreUnits(units) && i < |units|
    ensures 0xDC00 <= units[i] <= 0xDFFF ==> CodePointAt(units, i) == (0xFFFD, i + 1)
    ensures 0xD800 <= units[i] <= 0xDBFF && i + 1 == |units| ==> CodePointAt(units, i) == (0xFFFD, i + 1)
    ensures 0xD800 <= units[i] <= 0xDBFF && i + 1 < |units| && !(0xDC00 <= units[i + 1] <= 0xDFFF) ==>
              CodePointAt(units, i) == (0xFFFD, i + 2)
    ensures Utf8(0xFFFD) == [0xEF, 0xBF, 0xBD]
  {
    hide FromPair;
  }
}

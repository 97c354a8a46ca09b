/** Every choice of valid selectors can be written down as a pattern, and is decoded from it. */
module SelectorTheorems {
  import opened Bytes
  import opened Options
  import opened Ops
  import opened Tokens
  import opened Selectors
  import FlashmapLoad

  /** "storage" or "storage/flavor". */
  function Written(s: Selector): bytes
    requires s.storage != Unknown
  {
    Text(EncodeStorageType(s.storage).value) + if s.flavor.Some? then Text("/") + s.flavor.value else []
  }

  /** The pieces with a comma between them. */
  function Listed(pieces: seq<bytes>): bytes {
    if |pieces| == 0 then []
    else pieces[0] + (if |pieces| == 1 then [] else Text(",")) + Listed(pieces[1..])
  }

  /** Valid selectors of different storages; their flavors are listed, and have neither a slash nor a comma. */
  predicate IsChoice(c: Contents, selectors: seq<Selector>) {
    && |selectors| > 0 && DistinctStorages(selectors)
    && forall i :: 0 <= i < |selectors| ==> IsValid(c, selectors[i]) && FlavorFits(c, selectors[i].flavor)
  }

  predicate FlavorFits(c: Contents, flavor: Option<bytes>) {
    flavor.Some? ==> |flavor.value| > 0 && flavor.value in c.flavors && 44 !in flavor.value && 47 !in flavor.value
  }

  // ----- Tokens

  predicate ArePieces(pieces: seq<bytes>) {
    forall i :: 0 <= i < |pieces| ==> |pieces[i]| > 0 && 44 !in pieces[i]
  }

  lemma CommaText()
    ensures Text(",") == [44] && Text("/") == [47]
  {
  }

  /** A piece with a comma or nothing behind it is the next token. */
  lemma PieceIsToken(s: bytes, from: nat, piece: bytes)
    requires |piece| > 0 && 44 !in piece && from + |piece| <= |s| && s[from..from + |piece|] == piece
    requires from + |piece| < |s| ==> s[from + |piece|] == 44
    ensures StrTok(s, from, 44)
         == Some((piece, if from + |piece| < |s| then from + |piece| + 1 else from + |piece|))
  {
    assert s[from] == piece[0] && piece[0] in piece;
    TokenRuns(s, from, from + |piece|, 44);
  }

  lemma {:induction false} PiecesAreTokens(s: bytes, from: nat, pieces: seq<bytes>)
    requires ArePieces(pieces) && from <= |s| && s[from..] == Listed(pieces)
    ensures AllTokens(s, from, 44) == pieces
    decreases |pieces|
  {
    hide StrTok;
    CommaText();
    if |pieces| == 0 {
      NoToken(s, from);
    } else {
      var piece, rest := pieces[0], Listed(pieces[1..]);
      var comma := if |pieces| == 1 then [] else [44];
      assert s[from..] == piece + comma + rest;
      var next := from + |piece| + |comma|;
      assert s[from..from + |piece|] == s[from..][..|piece|];
      assert s[next..] == s[from..][|piece| + |comma|..];
      if |pieces| > 1 { assert s[from + |piece|] == s[from..][|piece|]; }
      PieceIsToken(s, from, piece);
      PiecesAreTokens(s, next, pieces[1..]);
    }
  }

  lemma NoToken(s: bytes, from: nat)
    requires from == |s|
    ensures AllTokens(s, from, 44) == []
  {
  }

  // ----- Selectors

  lemma StorageNames(s: StorageType)
    requires s != Unknown
    ensures var t := Text(EncodeStorageType(s).value);
            |t| > 0 && 44 !in t && 47 !in t && FlashmapLoad.DecodeStorageType(t) == s
  {
    var t := Text(EncodeStorageType(s).value);
    assert Text("emmc") == [101, 109, 109, 99] && Text("nand") == [110, 97, 110, 100];
    assert Text("ufs") == [117, 102, 115] && Text("nvme") == [110, 118, 109, 101];
    assert Text("spinor") == [115, 112, 105, 110, 111, 114];
  }

  /** A selector as it is written stands for itself. */
  lemma WrittenStandsFor(c: Contents, s: Selector)
    requires IsValid(c, s) && FlavorFits(c, s.flavor)
    ensures s.storage != Unknown && |Written(s)| > 0 && 44 !in Written(s) && StandsFor(c, Written(s), s)
  {
    hide Text, FlashmapLoad.DecodeStorageType, AllValid;
    KnownStorage(c);
    ValidExactly(c);
    CommaText();
    StorageNames(s.storage);
    var name := Text(EncodeStorageType(s.storage).value);
    if s.flavor.None? {
      assert Written(s) == name;
      AloneOnStorage(c, s);
    } else {
      var token := name + [47] + s.flavor.value;
      assert token == Written(s);
      FirstSlash(name, s.flavor.value);
      assert token[..|name|] == name && token[|name| + 1..] == s.flavor.value;
    }
  }

  /** Without a flavor a valid selector is the only one of its storage. */
  lemma AloneOnStorage(c: Contents, s: Selector)
    requires IsValid(c, s) && s.flavor.None?
    ensures forall t :: IsValid(c, t) && t.storage == s.storage ==> t == s
  {
  }

  lemma FirstSlash(name: bytes, flavor: bytes)
    requires 47 !in name
    ensures SlashAt(name + [47] + flavor) == |name| && 47 in name + [47] + flavor
  {
    var token := name + [47] + flavor;
    var i := SlashAt(token);
    assert token[|name|] == 47;
    assert forall k :: 0 <= k < |name| ==> token[k] == name[k];
  }

  function AllWritten(selectors: seq<Selector>): seq<bytes>
    requires forall i :: 0 <= i < |selectors| ==> selectors[i].storage != Unknown
  {
    seq(|selectors|, i requires 0 <= i < |selectors| => Written(selectors[i]))
  }

  lemma ChoicesAreKnown(c: Contents, selectors: seq<Selector>)
    requires IsChoice(c, selectors)
    ensures forall i :: 0 <= i < |selectors| ==> selectors[i].storage != Unknown
  {
    KnownStorage(c);
  }

  /** A choice of selectors, written with commas between them, is decoded to just these. */
  lemma PatternReadsBack(c: Contents, selectors: seq<Selector>)
    requires IsChoice(c, selectors)
    ensures forall i :: 0 <= i < |selectors| ==> selectors[i].storage != Unknown
    ensures DecodeSelectors(c, Some(Listed(AllWritten(selectors)))) == Some(selectors)
  {
    hide IsValid, StandsFor, Written, FlavorFits;
    ChoicesAreKnown(c, selectors);
    var pieces := AllWritten(selectors);
    forall i | 0 <= i < |selectors|
      ensures |pieces[i]| > 0 && 44 !in pieces[i] && StandsFor(c, pieces[i], selectors[i])
    {
      WrittenStandsFor(c, selectors[i]);
    }
    var pattern := Listed(pieces);
    assert pattern[0..] == pattern;
    PiecesAreTokens(pattern, 0, pieces);
    assert pattern != [] by { assert pieces[0] <= pattern; }
    assert IsValid(c, selectors[0]);
    PatternExactly(c, pattern, selectors);
  }

  // ----- Bare tokens

  predicate IsStorageName(token: bytes) {
    token in [Text("emmc"), Text("nand"), Text("ufs"), Text("nvme"), Text("spinor")]
  }

  /** A bare token that is no storage name stands for the one valid pair of that flavor. */
  lemma BareFlavorExactly(c: Contents, token: bytes, s: Selector)
    requires 47 !in token && !IsStorageName(token)
    ensures Resolve(c, token) == Some(s)
        <==> IsValid(c, s) && s.flavor == Some(token) && forall t :: IsValid(c, t) && t.flavor == Some(token) ==> t == s
  {
    hide Text, IsValid, AllValid;
    ValidExactly(c);
    ResolveExactly(c, token, s);
  }

  /** One that is a storage name stands for the one valid pair of that storage. */
  lemma BareStorageExactly(c: Contents, storage: StorageType, s: Selector)
    requires storage != Unknown
    ensures Resolve(c, Text(EncodeStorageType(storage).value)) == Some(s)
        <==> IsValid(c, s) && s.storage == storage && forall t :: IsValid(c, t) && t.storage == storage ==> t == s
  {
    hide Text, IsValid, AllValid, FlashmapLoad.DecodeStorageType;
    StorageNames(storage);
    ValidExactly(c);
    ResolveExactly(c, Text(EncodeStorageType(storage).value), s);
  }
}

/** Storage and flavor selectors: which there are in a contents.xml, and which a pattern picks. */
module Selectors {
  import opened Bytes
  import opened Options
  import opened Ops
  import opened Tokens
  import FlashmapLoad

  datatype FileType = OtherFile | ProgramFile | PatchFile | DeviceProgrammer | ProgrammerXml

  /** A file that contents.xml mentions. */
  datatype ContentsEntry = ContentsEntry(fileType: FileType, storage: StorageType, flavor: Option<bytes>, path: bytes)

  datatype Contents = Contents(entries: seq<ContentsEntry>, flavors: seq<bytes>)

  datatype Selector = Selector(storage: StorageType, flavor: Option<bytes>)

  const COMMA: byte := 44
  const SLASH: byte := 47

  /** `contents_flavor_matches` */
  predicate FlavorMatches(a: Option<bytes>, b: Option<bytes>) {
    (a.None? && b.None?) || (a.Some? && b.Some? && a.value == b.value)
  }

  predicate IsFlashed(e: ContentsEntry) { e.fileType.ProgramFile? || e.fileType.PatchFile? }

  predicate IsFlavored(e: ContentsEntry, s: StorageType) { IsFlashed(e) && e.storage == s && e.flavor.Some? }

  predicate HasFlavored(entries: seq<ContentsEntry>, s: StorageType) {
    exists i :: 0 <= i < |entries| && IsFlavored(entries[i], s)
  }

  /** A storage and flavor of an entry; a storage goes without a flavor only if none of its entries has one. */
  predicate Mentions(c: Contents, e: ContentsEntry, s: Selector) {
    && IsFlashed(e) && e.storage == s.storage && s.storage != Unknown && e.flavor == s.flavor
    && (s.flavor.None? ==> !HasFlavored(c.entries, s.storage))
  }

  predicate IsValid(c: Contents, s: Selector) {
    exists i :: 0 <= i < |c.entries| && Mentions(c, c.entries[i], s)
  }

  function SelectorOf(e: ContentsEntry): Selector { Selector(e.storage, e.flavor) }

  /** The selectors of the first `n` entries, each once, in the order of the entries. */
  function ValidSelectors(c: Contents, n: nat): seq<Selector>
    requires n <= |c.entries|
  {
    if n == 0 then []
    else
      var before, e := ValidSelectors(c, n - 1), c.entries[n - 1];
      if Mentions(c, e, SelectorOf(e)) && SelectorOf(e) !in before then before + [SelectorOf(e)] else before
  }

  function AllValid(c: Contents): seq<Selector> { ValidSelectors(c, |c.entries|) }

  predicate NoDuplicates(selectors: seq<Selector>) {
    forall i, j :: 0 <= i < j < |selectors| ==> selectors[i] != selectors[j]
  }

  lemma MentionsItself(c: Contents, e: ContentsEntry, s: Selector)
    requires Mentions(c, e, s)
    ensures s == SelectorOf(e)
  {
  }

  lemma {:induction false} ValidSoFar(c: Contents, n: nat)
    requires n <= |c.entries|
    ensures NoDuplicates(ValidSelectors(c, n))
    ensures forall s :: s in ValidSelectors(c, n) <==> exists i :: 0 <= i < n && Mentions(c, c.entries[i], s)
  {
    hide Mentions;
    if n > 0 {
      ValidSoFar(c, n - 1);
      var e := c.entries[n - 1];
      forall s | Mentions(c, e, s) ensures s == SelectorOf(e) { MentionsItself(c, e, s); }
    }
  }

  /** The valid selectors are exactly those that an entry mentions, without repetition. */
  lemma ValidExactly(c: Contents)
    ensures NoDuplicates(AllValid(c))
    ensures forall s :: s in AllValid(c) <==> IsValid(c, s)
  {
    hide ValidSelectors, Mentions;
    ValidSoFar(c, |c.entries|);
    forall s ensures s in AllValid(c) <==> IsValid(c, s) {}
  }

  // ----- Scanning

  /** `contents_selector_is_known` */
  method SelectorIsKnown(selectors: seq<Selector>, storage: StorageType, flavor: Option<bytes>) returns (known: bool)
    ensures known <==> Selector(storage, flavor) in selectors
  {
    for i := 0 to |selectors|
      invariant Selector(storage, flavor) !in selectors[..i]
    {
      if selectors[i].storage == storage && FlavorMatches(selectors[i].flavor, flavor) {
        assert selectors[i] == Selector(storage, flavor);
        return true;
      }
    }
    return false;
  }

  /** `contents_storage_is_selected` */
  method StorageIsSelected(selectors: seq<Selector>, storage: StorageType) returns (selected: bool)
    ensures selected <==> exists i :: 0 <= i < |selectors| && selectors[i].storage == storage
  {
    for i := 0 to |selectors|
      invariant forall j :: 0 <= j < i ==> selectors[j].storage != storage
    {
      if selectors[i].storage == storage {
        return true;
      }
    }
    return false;
  }

  /** `contents_storage_has_flavored_entries` */
  method StorageHasFlavoredEntries(entries: seq<ContentsEntry>, storage: StorageType) returns (has: bool)
    ensures has <==> HasFlavored(entries, storage)
  {
    for i := 0 to |entries|
      invariant forall j :: 0 <= j < i ==> !IsFlavored(entries[j], storage)
    {
      if !IsFlashed(entries[i]) || entries[i].storage != storage {
        continue;
      }
      if entries[i].flavor.Some? {
        assert IsFlavored(entries[i], storage);
        return true;
      }
    }
    return false;
  }

  /** `contents_collect_valid_selectors` */
  method CollectValidSelectors(c: Contents) returns (selectors: seq<Selector>)
    ensures selectors == AllValid(c)
  {
    selectors := [];
    for i := 0 to |c.entries|
      invariant selectors == ValidSelectors(c, i)
    {
      var e := c.entries[i];
      if !IsFlashed(e) || e.storage == Unknown {
        continue;
      }
      if e.flavor.None? {
        var has := StorageHasFlavoredEntries(c.entries, e.storage);
        if has {
          continue;
        }
      }
      var known := SelectorIsKnown(selectors, e.storage, e.flavor);
      if known {
        continue;
      }
      selectors := selectors + [SelectorOf(e)];
    }
  }

  // ----- Picking

  /** What a token without a slash stands for: a storage type if it names one, otherwise a flavor. */
  predicate Picks(token: bytes, s: Selector) {
    var storage := FlashmapLoad.DecodeStorageType(token);
    if storage != Unknown then s.storage == storage else s.flavor == Some(token)
  }

  function Picked(token: bytes, valid: seq<Selector>): seq<Selector> {
    if |valid| == 0 then []
    else
      var before, last := Picked(token, valid[..|valid| - 1]), valid[|valid| - 1];
      if Picks(token, last) then before + [last] else before
  }

  /** The matches are counted, and the last one is kept. */
  ghost predicate Counted(picked: seq<Selector>, matches: nat, selector: Option<Selector>) {
    matches == |picked| && (matches > 0 ==> selector == Some(picked[matches - 1]))
  }

  /** `contents_select_by_storage` */
  method SelectByStorage(valid: seq<Selector>, token: bytes) returns (matches: nat, selector: Option<Selector>)
    requires FlashmapLoad.DecodeStorageType(token) != Unknown
    ensures Counted(Picked(token, valid), matches, selector)
  {
    hide FlashmapLoad.DecodeStorageType;
    matches, selector := 0, None;
    for i := 0 to |valid|
      invariant Counted(Picked(token, valid[..i]), matches, selector)
    {
      assert valid[..i + 1][..i] == valid[..i];
      if valid[i].storage == FlashmapLoad.DecodeStorageType(token) {
        selector, matches := Some(valid[i]), matches + 1;
      }
    }
    assert valid[..|valid|] == valid;
  }

  /** `contents_select_by_flavor` */
  method SelectByFlavor(valid: seq<Selector>, token: bytes) returns (matches: nat, selector: Option<Selector>)
    requires FlashmapLoad.DecodeStorageType(token) == Unknown
    ensures Counted(Picked(token, valid), matches, selector)
  {
    hide FlashmapLoad.DecodeStorageType;
    matches, selector := 0, None;
    for i := 0 to |valid|
      invariant Counted(Picked(token, valid[..i]), matches, selector)
    {
      assert valid[..i + 1][..i] == valid[..i];
      if valid[i].flavor == Some(token) {
        selector, matches := Some(valid[i]), matches + 1;
      }
    }
    assert valid[..|valid|] == valid;
  }

  lemma {:induction false} PickedExactly(token: bytes, valid: seq<Selector>)
    ensures forall s :: s in Picked(token, valid) <==> s in valid && Picks(token, s)
  {
    hide Picks;
    if |valid| > 0 {
      PickedExactly(token, valid[..|valid| - 1]);
      assert valid == valid[..|valid| - 1] + [valid[|valid| - 1]];
    }
  }

  lemma {:induction false} PickedOnce(token: bytes, valid: seq<Selector>)
    requires NoDuplicates(valid)
    ensures NoDuplicates(Picked(token, valid))
  {
    hide Picks;
    if |valid| > 0 {
      var init, last := valid[..|valid| - 1], valid[|valid| - 1];
      PickedOnce(token, init);
      PickedExactly(token, init);
      forall i | 0 <= i < |init| ensures init[i] != last { assert valid[i] != valid[|valid| - 1]; }
    }
  }

  /** Where a slash is found first. */
  function SlashAt(token: bytes): (i: nat)
    ensures i <= |token| && SLASH !in token[..i] && (i < |token| ==> token[i] == SLASH)
  {
    if |token| == 0 || token[0] == SLASH then 0
    else
      var i := 1 + SlashAt(token[1..]);
      assert token[..i] == [token[0]] + token[1..][..i - 1];
      i
  }

  /** The selector that a token stands for. */
  function Resolve(c: Contents, token: bytes): Option<Selector> {
    var i := SlashAt(token);
    if i == |token| then
      var picked := Picked(token, AllValid(c));
      if |picked| == 1 then Some(picked[0]) else None
    else
      var name, flavor := token[..i], token[i + 1..];
      var s := Selector(FlashmapLoad.DecodeStorageType(name), Some(flavor));
      if |name| == 0 || |flavor| == 0 || SLASH in flavor || flavor !in c.flavors || s.storage == Unknown
          || s !in AllValid(c)
      then None else Some(s)
  }

  /** A bare token stands for a selector when it picks that one and no other. */
  predicate OnlyPick(c: Contents, token: bytes, s: Selector) {
    s in AllValid(c) && Picks(token, s) && forall t :: t in AllValid(c) && Picks(token, t) ==> t == s
  }

  /** A pair stands for the selector it spells out. */
  predicate SpellsOut(c: Contents, token: bytes, s: Selector) {
    var i := SlashAt(token);
    && 0 < i < |token| - 1 && SLASH !in token[i + 1..] && token[i + 1..] in c.flavors
    && s == Selector(FlashmapLoad.DecodeStorageType(token[..i]), Some(token[i + 1..]))
  }

  predicate StandsFor(c: Contents, token: bytes, s: Selector) {
    if SLASH !in token then OnlyPick(c, token, s) else SpellsOut(c, token, s) && s in AllValid(c)
  }

  /** A token resolves exactly to the selector it stands for. */
  lemma ResolveExactly(c: Contents, token: bytes, s: Selector)
    ensures Resolve(c, token) == Some(s) <==> StandsFor(c, token, s)
    ensures Resolve(c, token) == Some(s) ==> IsValid(c, s)
  {
    hide Picks, AllValid, IsValid, FlashmapLoad.DecodeStorageType, Mentions;
    ValidExactly(c);
    var i := SlashAt(token);
    if i == |token| {
      assert token[..i] == token;
      PickedExactly(token, AllValid(c));
      PickedOnce(token, AllValid(c));
      var picked := Picked(token, AllValid(c));
      OneOnly(picked, s);
    } else {
      assert token[i] in token;
      KnownStorage(c);
    }
  }

  lemma OneOnly(picked: seq<Selector>, s: Selector)
    requires NoDuplicates(picked)
    ensures (|picked| == 1 && picked[0] == s) <==> (s in picked && forall t :: t in picked ==> t == s)
  {
    if s in picked && forall t :: t in picked ==> t == s {
      if |picked| > 1 { assert picked[0] in picked && picked[1] in picked; }
    }
  }

  lemma KnownStorage(c: Contents)
    ensures forall s :: IsValid(c, s) ==> s.storage != Unknown
  {
  }

  // ----- Patterns

  function DecodeTokens(c: Contents, tokens: seq<bytes>): Option<seq<Selector>> {
    if |tokens| == 0 then Some([])
    else
      var before, s := DecodeTokens(c, tokens[..|tokens| - 1]), Resolve(c, tokens[|tokens| - 1]);
      if before.None? || s.None? || Chosen(before.value, s.value.storage) then None else Some(before.value + [s.value])
  }

  predicate Chosen(selectors: seq<Selector>, storage: StorageType) {
    exists i :: 0 <= i < |selectors| && selectors[i].storage == storage
  }

  /** `contents_decode_selectors` */
  function DecodeSelectors(c: Contents, pattern: Option<bytes>): Option<seq<Selector>> {
    if |AllValid(c)| == 0 then None
    else if pattern.None? then if |AllValid(c)| == 1 then Some(AllValid(c)) else None
    else if |pattern.value| == 0 then None
    else DecodeTokens(c, AllTokens(pattern.value, 0, COMMA))
  }

  predicate DistinctStorages(selectors: seq<Selector>) {
    forall i, j :: 0 <= i < j < |selectors| ==> selectors[i].storage != selectors[j].storage
  }

  predicate TokensStandFor(c: Contents, tokens: seq<bytes>, selectors: seq<Selector>) {
    |tokens| == |selectors| && forall i :: 0 <= i < |tokens| ==> StandsFor(c, tokens[i], selectors[i])
  }

  /** A list of tokens is decoded exactly when each stands for a selector and no storage comes twice. */
  lemma {:induction false} TokensExactly(c: Contents, tokens: seq<bytes>, r: seq<Selector>)
    ensures DecodeTokens(c, tokens) == Some(r) <==> TokensStandFor(c, tokens, r) && DistinctStorages(r)
    ensures DecodeTokens(c, tokens) == Some(r) ==> forall i :: 0 <= i < |r| ==> IsValid(c, r[i])
  {
    hide Resolve, StandsFor, IsValid;
    if |tokens| == 0 {
    } else {
      var init, token := tokens[..|tokens| - 1], tokens[|tokens| - 1];
      if DecodeTokens(c, tokens) == Some(r) {
        TokensExactly(c, init, DecodeTokens(c, init).value);
        ResolveExactly(c, token, Resolve(c, token).value);
      }
      if TokensStandFor(c, tokens, r) && DistinctStorages(r) {
        TokensExactly(c, init, r[..|r| - 1]);
        ResolveExactly(c, token, r[|r| - 1]);
        assert r == r[..|r| - 1] + [r[|r| - 1]];
      }
    }
  }

  /** A pattern is decoded to valid selectors of different storages, the ones its tokens stand for. */
  lemma PatternExactly(c: Contents, pattern: bytes, r: seq<Selector>)
    ensures DecodeSelectors(c, Some(pattern)) == Some(r)
        <==> |pattern| > 0 && (exists s :: IsValid(c, s)) && DistinctStorages(r)
             && TokensStandFor(c, AllTokens(pattern, 0, COMMA), r)
    ensures DecodeSelectors(c, Some(pattern)) == Some(r) ==> forall i :: 0 <= i < |r| ==> IsValid(c, r[i])
  {
    hide DecodeTokens, IsValid, AllValid, StandsFor;
    ValidExactly(c);
    TokensExactly(c, AllTokens(pattern, 0, COMMA), r);
    if |AllValid(c)| > 0 { assert IsValid(c, AllValid(c)[0]); }
  }

  /** Without a pattern there must be one valid selector only. */
  lemma NoPatternExactly(c: Contents, r: seq<Selector>)
    ensures DecodeSelectors(c, None) == Some(r)
        <==> |r| == 1 && IsValid(c, r[0]) && forall s :: IsValid(c, s) ==> s == r[0]
  {
    hide IsValid, AllValid;
    ValidExactly(c);
    var valid := AllValid(c);
    if |r| == 1 {
      OneOnly(valid, r[0]);
      assert r == [r[0]];
      if |valid| == 1 { assert valid == [valid[0]]; }
    }
  }

  lemma {:induction false} TokensFail(c: Contents, tokens: seq<bytes>, i: nat)
    requires i <= |tokens| && DecodeTokens(c, tokens[..i]).None?
    ensures DecodeTokens(c, tokens).None?
    decreases |tokens| - i
  {
    hide Resolve, Chosen;
    if i < |tokens| {
      assert tokens[..i + 1][..i] == tokens[..i];
      TokensFail(c, tokens, i + 1);
    } else {
      assert tokens[..i] == tokens;
    }
  }

  /** `contents_flavor_is_valid` */
  method FlavorIsValid(c: Contents, flavor: bytes) returns (valid: bool)
    ensures valid <==> flavor in c.flavors
  {
    for i := 0 to |c.flavors|
      invariant flavor !in c.flavors[..i]
    {
      if c.flavors[i] == flavor {
        return true;
      }
    }
    return false;
  }

  method ResolveToken(c: Contents, valid: seq<Selector>, token: bytes) returns (s: Option<Selector>)
    requires valid == AllValid(c)
    ensures s == Resolve(c, token)
  {
    hide Picks, AllValid, FlashmapLoad.DecodeStorageType;
    var sep := SlashAt(token);
    if sep == |token| {
      var matches, selector;
      if FlashmapLoad.DecodeStorageType(token) != Unknown {
        matches, selector := SelectByStorage(valid, token);
      } else {
        matches, selector := SelectByFlavor(valid, token);
      }
      return if matches == 1 then selector else None;
    }
    var name, flavor := token[..sep], token[sep + 1..];
    if |name| == 0 || |flavor| == 0 || SLASH in flavor {
      return None;
    }
    var ok := FlavorIsValid(c, flavor);
    if !ok {
      return None;
    }
    var storage := FlashmapLoad.DecodeStorageType(name);
    if storage == Unknown {
      return None;
    }
    ok := SelectorIsKnown(valid, storage, Some(flavor));
    return if ok then Some(Selector(storage, Some(flavor))) else None;
  }

  method ContentsDecodeSelectors(c: Contents, pattern: Option<bytes>) returns (r: Option<seq<Selector>>)
    ensures r == DecodeSelectors(c, pattern)
  {
    hide AllValid, Resolve;
    var valid := CollectValidSelectors(c);
    if |valid| == 0 {
      return None;
    }
    if pattern.None? {
      return if |valid| == 1 then Some(valid) else None;
    }
    if |pattern.value| == 0 {
      return None;
    }
    ghost var tokens := AllTokens(pattern.value, 0, COMMA);
    var selectors: seq<Selector> := [];
    var at := 0;
    ghost var done := 0;
    while true
      invariant at <= |pattern.value| && done <= |tokens|
      invariant tokens[done..] == AllTokens(pattern.value, at, COMMA)
      invariant DecodeTokens(c, tokens[..done]) == Some(selectors)
      decreases |pattern.value| - at
    {
      var next := StrTok(pattern.value, at, COMMA);
      if next.None? {
        assert tokens[..done] == tokens;
        return Some(selectors);
      }
      var token := next.value.0;
      assert tokens[done..][0] == token && tokens[done..][1..] == tokens[done + 1..];
      assert tokens[..done + 1][..done] == tokens[..done];
      var s := ResolveToken(c, valid, token);
      if s.None? {
        TokensFail(c, tokens, done + 1);
        return None;
      }
      var twice := StorageIsSelected(selectors, s.value.storage);
      if twice {
        TokensFail(c, tokens, done + 1);
        return None;
      }
      selectors := selectors + [s.value];
      at, done := next.value.1, done + 1;
    }
    assert false;
    return None;
  }
}

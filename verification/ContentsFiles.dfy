/**
 * Which files of a contents.xml are used: for each decoded selector the program files and then the patch
 * files of its storage, or of none, that are of its flavor, or of none; and no other.
 */
module ContentsFiles {
  import opened Bytes
  import opened Options
  import opened Ops
  import opened ProgramLoad
  import opened Selectors
  import opened ContentsSpec

  /** The positions in `order`, first to last, of the entries of one kind that are for a selector. */
  ghost predicate Lists(entries: seq<ContentsEntry>, fileType: FileType, s: Selector, order: seq<nat>) {
    && (forall j, k :: 0 <= j < k < |order| ==> order[j] < order[k])
    && (forall i :: i in order <==> 0 <= i < |entries| && IsFor(entries[i], fileType, s))
  }

  /** A file of this kind, of the selector's storage or of none, and of the selector's flavor or of none. */
  predicate IsFor(e: ContentsEntry, fileType: FileType, s: Selector) {
    && e.fileType == fileType
    && (e.storage == Unknown || e.storage == s.storage)
    && (e.flavor == None || e.flavor == s.flavor)
  }

  predicate Listed(entries: seq<ContentsEntry>, order: seq<nat>)
      { forall j :: 0 <= j < |order| ==> order[j] < |entries| }

  /** The operations of the files at these positions, one file after the other. */
  function LoadInOrder(xml: Xml, files: map<bytes, bytes>, entries: seq<ContentsEntry>, order: seq<nat>, s: Selector)
    : Option<seq<Op>>
    requires Listed(entries, order)
  {
    if |order| == 0 then Some([])
    else
      var before := LoadInOrder(xml, files, entries, order[..|order| - 1], s);
      var last := LoadFile(xml, files, entries[order[|order| - 1]], s);
      if before.None? || last.None? then None else Some(before.value + last.value)
  }

  lemma {:induction false} LoadsAsBefore(xml: Xml, files: map<bytes, bytes>, entries: seq<ContentsEntry>,
                                         e: ContentsEntry, order: seq<nat>, s: Selector)
    requires Listed(entries, order)
    ensures Listed(entries + [e], order)
    ensures LoadInOrder(xml, files, entries + [e], order, s) == LoadInOrder(xml, files, entries, order, s)
  {
    hide LoadFile;
    if |order| > 0 { LoadsAsBefore(xml, files, entries, e, order[..|order| - 1], s); }
  }

  lemma ListsOneMore(init: seq<ContentsEntry>, e: ContentsEntry, fileType: FileType, s: Selector, before: seq<nat>)
    requires Lists(init, fileType, s, before)
    ensures Lists(init + [e], fileType, s, if Applies(e, fileType, s) then before + [|init|] else before)
  {
    hide IsFor, Applies;
    var n := |init|;
    assert Applies(e, fileType, s) <==> IsFor(e, fileType, s) by { AppliesIsFor(e, fileType, s); }
    ListsAreListed(init, fileType, s, before);
    forall i
      ensures i in before + [n] <==> i in before || i == n
      ensures 0 <= i < n ==> (init + [e])[i] == init[i]
    {
    }
  }

  lemma AppliesIsFor(e: ContentsEntry, fileType: FileType, s: Selector)
    ensures Applies(e, fileType, s) <==> IsFor(e, fileType, s)
  {
  }

  lemma ListsAreListed(entries: seq<ContentsEntry>, fileType: FileType, s: Selector, order: seq<nat>)
    requires Lists(entries, fileType, s, order)
    ensures Listed(entries, order)
  {
    forall j | 0 <= j < |order| ensures order[j] < |entries| { assert order[j] in order; }
  }

  /** The positions of the entries for a selector. */
  lemma {:induction false} KindInOrder(xml: Xml, files: map<bytes, bytes>, entries: seq<ContentsEntry>,
                                       fileType: FileType, s: Selector) returns (order: seq<nat>)
    ensures Lists(entries, fileType, s, order) && Listed(entries, order)
    ensures LoadKind(xml, files, entries, fileType, s) == LoadInOrder(xml, files, entries, order, s)
  {
    hide LoadFile, Lists;
    if |entries| == 0 {
      order := [];
      NothingListed(fileType, s);
    } else {
      var n := |entries| - 1;
      var init, e := entries[..n], entries[n];
      assert init + [e] == entries;
      var before := KindInOrder(xml, files, init, fileType, s);
      LoadsAsBefore(xml, files, init, e, before, s);
      ListsOneMore(init, e, fileType, s, before);
      order := if Applies(e, fileType, s) then before + [n] else before;
      assert (before + [n])[..|before|] == before;
      ListsAreListed(entries, fileType, s, order);
    }
  }

  lemma NothingListed(fileType: FileType, s: Selector)
    ensures Lists([], fileType, s, [])
  {
  }

  // ----- Whole patterns

  /** The operations of one selection: its configuration, its program files' and its patch files'. */
  ghost predicate IsSelection(xml: Xml, files: map<bytes, bytes>, entries: seq<ContentsEntry>, s: Selector,
                              ops: seq<Op>) {
    exists programs, patches ::
      && Lists(entries, ProgramFile, s, programs) && Listed(entries, programs)
      && Lists(entries, PatchFile, s, patches) && Listed(entries, patches)
      && AreFrom(xml, files, entries, s, programs, patches, ops)
  }

  predicate AreFrom(xml: Xml, files: map<bytes, bytes>, entries: seq<ContentsEntry>, s: Selector, programs: seq<nat>,
                    patches: seq<nat>, ops: seq<Op>)
    requires Listed(entries, programs) && Listed(entries, patches)
  {
    var p, q := LoadInOrder(xml, files, entries, programs, s), LoadInOrder(xml, files, entries, patches, s);
    p.Some? && q.Some? && ops == [Configure(s.storage)] + p.value + q.value
  }

  function Flatten(parts: seq<seq<Op>>): seq<Op> {
    if |parts| == 0 then [] else Flatten(parts[..|parts| - 1]) + parts[|parts| - 1]
  }

  /** One part for each decoded selector, in their order. */
  ghost predicate FromFiles(xml: Xml, files: map<bytes, bytes>, c: Contents, pattern: Option<bytes>, ops: seq<Op>) {
    var selectors := DecodeSelectors(c, pattern);
    && selectors.Some? && |selectors.value| > 0
    && exists parts :: ArePartsOf(xml, files, c.entries, selectors.value, parts) && ops == Flatten(parts)
  }

  ghost predicate ArePartsOf(xml: Xml, files: map<bytes, bytes>, entries: seq<ContentsEntry>, selectors: seq<Selector>,
                             parts: seq<seq<Op>>) {
    |parts| == |selectors|
    && forall k :: 0 <= k < |parts| ==> IsSelection(xml, files, entries, selectors[k], parts[k])
  }

  lemma SelectionIs(xml: Xml, files: map<bytes, bytes>, c: Contents, s: Selector)
    requires LoadSelection(xml, files, c, s).Some?
    ensures IsSelection(xml, files, c.entries, s, LoadSelection(xml, files, c, s).value)
  {
    hide LoadKind, LoadInOrder, Lists;
    var programs := KindInOrder(xml, files, c.entries, ProgramFile, s);
    var patches := KindInOrder(xml, files, c.entries, PatchFile, s);
    var p, q := LoadKind(xml, files, c.entries, ProgramFile, s).value,
        LoadKind(xml, files, c.entries, PatchFile, s).value;
    assert [Configure(s.storage)] + p + q == [Configure(s.storage)] + (p + q);
    assert AreFrom(xml, files, c.entries, s, programs, patches, LoadSelection(xml, files, c, s).value);
  }

  lemma {:induction false} SelectionsAre(xml: Xml, files: map<bytes, bytes>, c: Contents, selectors: seq<Selector>)
    returns (parts: seq<seq<Op>>)
    requires LoadSelections(xml, files, c, selectors).Some?
    ensures ArePartsOf(xml, files, c.entries, selectors, parts)
    ensures LoadSelections(xml, files, c, selectors).value == Flatten(parts)
  {
    hide LoadSelection, IsSelection;
    if |selectors| == 0 {
      parts := [];
    } else {
      var n := |selectors| - 1;
      var before := SelectionsAre(xml, files, c, selectors[..n]);
      SelectionIs(xml, files, c, selectors[n]);
      parts := before + [LoadSelection(xml, files, c, selectors[n]).value];
      assert parts[..n] == before;
    }
  }

  /** What is loaded for a pattern is exactly the operations of the files for its selectors. */
  lemma ContentsFromFiles(xml: Xml, files: map<bytes, bytes>, c: Contents, pattern: Option<bytes>)
    requires ContentsOps(xml, files, c, pattern).Some?
    ensures FromFiles(xml, files, c, pattern, ContentsOps(xml, files, c, pattern).value)
  {
    hide LoadSelections, DecodeSelectors, ArePartsOf;
    var parts := SelectionsAre(xml, files, c, DecodeSelectors(c, pattern).value);
  }

  // ----- When it fails, and what does not matter

  /** A file that is used. */
  predicate IsUsed(e: ContentsEntry, selectors: seq<Selector>, s: Selector) {
    s in selectors && (IsFor(e, ProgramFile, s) || IsFor(e, PatchFile, s))
  }

  ghost predicate AllLoad(xml: Xml, files: map<bytes, bytes>, c: Contents, selectors: seq<Selector>) {
    forall e, s | e in c.entries && IsUsed(e, selectors, s) :: LoadFile(xml, files, e, s).Some?
  }

  lemma {:induction false} KindLoadsIff(xml: Xml, files: map<bytes, bytes>, entries: seq<ContentsEntry>,
                                        fileType: FileType, s: Selector)
    ensures LoadKind(xml, files, entries, fileType, s).Some?
        <==> forall e | e in entries && IsFor(e, fileType, s) :: LoadFile(xml, files, e, s).Some?
  {
    hide LoadFile;
    if |entries| > 0 {
      var n := |entries| - 1;
      assert forall e :: e in entries <==> e in entries[..n] || e == entries[n];
      AppliesIsFor(entries[n], fileType, s);
      KindLoadsIff(xml, files, entries[..n], fileType, s);
    }
  }

  lemma {:induction false} SelectionsLoadIff(xml: Xml, files: map<bytes, bytes>, c: Contents, selectors: seq<Selector>)
    ensures LoadSelections(xml, files, c, selectors).Some? <==> AllLoad(xml, files, c, selectors)
  {
    hide LoadFile, IsFor, LoadKind;
    if |selectors| > 0 {
      var n := |selectors| - 1;
      var s := selectors[n];
      assert forall t :: t in selectors <==> t in selectors[..n] || t == s;
      SelectionsLoadIff(xml, files, c, selectors[..n]);
      KindLoadsIff(xml, files, c.entries, ProgramFile, s);
      KindLoadsIff(xml, files, c.entries, PatchFile, s);
    }
  }

  /** A pattern loads exactly when it is decoded to at least one selector, and every file that is used loads. */
  ghost predicate Loads(xml: Xml, files: map<bytes, bytes>, c: Contents, pattern: Option<bytes>) {
    var selectors := DecodeSelectors(c, pattern);
    selectors.Some? && |selectors.value| > 0 && AllLoad(xml, files, c, selectors.value)
  }

  lemma ContentsLoadIff(xml: Xml, files: map<bytes, bytes>, c: Contents, pattern: Option<bytes>)
    ensures ContentsOps(xml, files, c, pattern).Some? <==> Loads(xml, files, c, pattern)
  {
    hide LoadSelections, DecodeSelectors, AllLoad;
    if DecodeSelectors(c, pattern).Some? { SelectionsLoadIff(xml, files, c, DecodeSelectors(c, pattern).value); }
  }

  // ----- What does not matter

  /** Every file that is used loads alike. */
  ghost predicate UsedAlike(xml: Xml, files: map<bytes, bytes>, others: map<bytes, bytes>, c: Contents,
                            selectors: seq<Selector>) {
    forall e, s | e in c.entries && IsUsed(e, selectors, s) :: LoadFile(xml, files, e, s) == LoadFile(xml, others, e, s)
  }

  lemma {:induction false} KindAlike(xml: Xml, files: map<bytes, bytes>, others: map<bytes, bytes>,
                                     entries: seq<ContentsEntry>, fileType: FileType, s: Selector)
    requires forall e | e in entries
             && IsFor(e, fileType, s) :: LoadFile(xml, files, e, s) == LoadFile(xml, others, e, s)
    ensures LoadKind(xml, files, entries, fileType, s) == LoadKind(xml, others, entries, fileType, s)
  {
    hide LoadFile;
    if |entries| > 0 {
      var n := |entries| - 1;
      AppliesIsFor(entries[n], fileType, s);
      KindAlike(xml, files, others, entries[..n], fileType, s);
    }
  }

  lemma {:induction false} SelectionsAlike(xml: Xml, files: map<bytes, bytes>, others: map<bytes, bytes>, c: Contents,
                                           selectors: seq<Selector>)
    requires UsedAlike(xml, files, others, c, selectors)
    ensures LoadSelections(xml, files, c, selectors) == LoadSelections(xml, others, c, selectors)
  {
    hide LoadFile, IsFor, LoadKind;
    if |selectors| > 0 {
      var n := |selectors| - 1;
      assert forall t :: t in selectors <==> t in selectors[..n] || t == selectors[n];
      SelectionsAlike(xml, files, others, c, selectors[..n]);
      KindAlike(xml, files, others, c.entries, ProgramFile, selectors[n]);
      KindAlike(xml, files, others, c.entries, PatchFile, selectors[n]);
    }
  }

  /** The files of all other entries may hold anything, or be missing. */
  lemma OtherFilesDoNotMatter(xml: Xml, files: map<bytes, bytes>, others: map<bytes, bytes>, c: Contents,
                              pattern: Option<bytes>)
    requires DecodeSelectors(c, pattern).Some? ==> UsedAlike(xml, files, others, c, DecodeSelectors(c, pattern).value)
    ensures ContentsOps(xml, files, c, pattern) == ContentsOps(xml, others, c, pattern)
  {
    hide LoadSelections, DecodeSelectors, UsedAlike;
    if DecodeSelectors(c, pattern).Some? {
      SelectionsAlike(xml, files, others, c, DecodeSelectors(c, pattern).value);
    }
  }
}

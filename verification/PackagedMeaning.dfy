/** The documents of a package, read back, mean what the operations meant. */
module PackagedMeaning {
  import opened Bytes
  import opened Options
  import opened Files
  import opened Programming
  import opened Ops
  import opened ProgramLoad
  import opened Meaning
  import opened ZipperSpec
  import opened PackagedTags
  import opened PackagedMembers
  import opened SparseTheorems

  // ----- The storage contexts

  /** The documents that a storage has so far. */
  function ContextOf(k: Package, s: StorageType): StorageContext {
    var i := FindStorage(k.storages, s);
    if i.Some? then k.storages[i.value] else StorageContext(s, [], [])
  }

  lemma {:induction false} FindUpdated(storages: seq<StorageContext>, i: nat, c: StorageContext, s: StorageType)
    requires i < |storages| && c.storage == storages[i].storage
    ensures FindStorage(storages[i := c], s) == FindStorage(storages, s)
  {
    var n := |storages| - 1;
    var t := storages[i := c];
    if i < n {
      assert t[..n] == storages[..n][i := c];
      FindUpdated(storages[..n], i, c, s);
    } else {
      assert t[..n] == storages[..n];
    }
  }

  lemma FindAppended(storages: seq<StorageContext>, c: StorageContext, s: StorageType)
    ensures FindStorage(storages + [c], s)
         == if FindStorage(storages, s).Some? then FindStorage(storages, s)
            else if c.storage == s then Some(|storages|) else None
  {
    assert (storages + [c])[..|storages|] == storages;
  }

  /** The current context is the one of the storage that was configured last. */
  predicate Follows(k: Package, current: Option<StorageType>) {
    && k.Valid()
    && (current.None? ==> k.current.None?)
    && (current.Some? ==>
        FindStorage(k.storages, current.value).Some? && k.current == FindStorage(k.storages, current.value))
  }

  lemma ContextReplaced(k: Package, current: Option<StorageType>, c: StorageContext, s: StorageType)
    requires Follows(k, current) && current.Some? && c.storage == current.value
    ensures Follows(k.WithContext(c), current)
    ensures ContextOf(k.WithContext(c), s) == if s == current.value then c else ContextOf(k, s)
  {
    hide FindStorage;
    FindUpdated(k.storages, k.current.value, c, s);
    FindUpdated(k.storages, k.current.value, c, current.value);
  }

  lemma ConfigureFollows(k: Package, current: Option<StorageType>, storage: StorageType, s: StorageType)
    requires Follows(k, current) && PackConfigure(k, storage).Some?
    ensures Follows(PackConfigure(k, storage).value, Some(storage))
    ensures ContextOf(PackConfigure(k, storage).value, s) == ContextOf(k, s)
  {
    hide FindStorage;
    FindAppended(k.storages, StorageContext(storage, [], []), s);
    FindAppended(k.storages, StorageContext(storage, [], []), storage);
  }

  /** Packing one operation: the current storage is followed. */
  lemma OpFollows(files: map<bytes, bytes>, k: Package, current: Option<StorageType>, op: Op)
    requires Follows(k, current) && PackOp(files, k, op).Some?
    ensures Follows(PackOp(files, k, op).value, if op.Configure? then Some(op.storage) else current)
  {
    hide FindStorage, Register, ProgramTag, EraseTag, PatchTag, Text, PackConfigure;
    if op.Configure? {
      ConfigureFollows(k, current, op.storage, op.storage);
    } else if op.Program? && op.p.filename.Some? {
      var k' := Register(files, k, k.Here().storage, op.p).value.0;
      assert Follows(k', current);
      var c := k'.Here();
      forall tag ensures Follows(k'.AppendProgram(tag), current) {
        ContextReplaced(k', current, c.(programs := c.programs + [tag]), current.value);
      }
    } else if op.Erase? {
      var c := k.Here();
      ContextReplaced(k, current, c.(programs := c.programs + [EraseTag(op.e)]), current.value);
    } else if op.Patch? {
      var c := k.Here();
      ContextReplaced(k, current, c.(patches := c.patches + [PatchTag(op.q)]), current.value);
    }
  }

  lemma NothingFollows()
    ensures Follows(EMPTY_PACKAGE, None)
  {
  }

  lemma {:induction false} OpsFollow(files: map<bytes, bytes>, ops: seq<Op>)
    requires PackOps(files, ops).Some?
    ensures Follows(PackOps(files, ops).value, Current(ops))
  {
    hide PackOp, Follows;
    if |ops| > 0 {
      OpsFollow(files, ops[..|ops| - 1]);
      OpFollows(files, PackOps(files, ops[..|ops| - 1]).value, Current(ops[..|ops| - 1]), ops[|ops| - 1]);
    } else {
      NothingFollows();
    }
  }

  // ----- What the operations of one storage are like

  predicate ReadableIn(s: StorageType, ops: seq<Op>) {
    |ops| == 0
    || (ReadableIn(s, ops[..|ops| - 1])
        && (Current(ops[..|ops| - 1]) == Some(s) ==> Readable(s == Nand, ops[|ops| - 1])))
  }

  predicate FaithfulIn(s: StorageType, ops: seq<Op>) {
    |ops| == 0
    || (FaithfulIn(s, ops[..|ops| - 1])
        && (Current(ops[..|ops| - 1]) == Some(s) ==> Faithful(s == Nand, ops[|ops| - 1])))
  }

  /** The selected operations on storage `s` mean the same in a package, with these files. */
  predicate KeptIn(src: Sources, storageSize: nat, s: StorageType, part: Part, ops: seq<Op>) {
    |ops| == 0
    || (KeptIn(src, storageSize, s, part, ops[..|ops| - 1])
        && (Current(ops[..|ops| - 1]) == Some(s) && InPart(part, ops[|ops| - 1]) ==>
              Kept(src, storageSize, s == Nand, ops[|ops| - 1])))
  }

  lemma KeptStep(src: Sources, storageSize: nat, s: StorageType, part: Part, ops: seq<Op>, op: Op)
    ensures KeptIn(src, storageSize, s, part, ops + [op])
        <==> KeptIn(src, storageSize, s, part, ops)
             && (Current(ops) == Some(s) && InPart(part, op) ==> Kept(src, storageSize, s == Nand, op))
  {
    hide Kept, Current;
    assert (ops + [op])[..|ops|] == ops;
  }

  /** All the operations are kept exactly when those of either part are. */
  lemma {:induction false} KeptParts(src: Sources, storageSize: nat, s: StorageType, ops: seq<Op>)
    ensures KeptIn(src, storageSize, s, All, ops)
        <==> KeptIn(src, storageSize, s, Stores, ops) && KeptIn(src, storageSize, s, Edits, ops)
  {
    hide Kept, Current;
    if |ops| > 0 { KeptParts(src, storageSize, s, ops[..|ops| - 1]); }
  }

  /** What is faithful is kept, whatever the files hold. */
  lemma {:induction false} FaithfulIsKept(src: Sources, storageSize: nat, s: StorageType, ops: seq<Op>)
    requires FaithfulIn(s, ops)
    ensures KeptIn(src, storageSize, s, All, ops)
  {
    hide Current, Padded, ImageSectors, Text;
    if |ops| > 0 { FaithfulIsKept(src, storageSize, s, ops[..|ops| - 1]); }
  }

  /** Every image is a single byte 1. */
  ghost predicate OneByteImages(src: Sources, ops: seq<Op>) {
    forall i :: 0 <= i < |ops| && ops[i].Program? && ops[i].p.filename.Some? ==>
      ops[i].p.filename.value in src.files && src.files[ops[i].p.filename.value] == [1]
  }

  lemma {:induction false} OneByteFiles(ops: seq<Op>) returns (files: map<bytes, bytes>)
    ensures OneByteImages(Sources(files, map[]), ops)
    ensures forall f :: f in files ==> files[f] == [1]
  {
    files := map[];
    if |ops| > 0 {
      var op := ops[|ops| - 1];
      files := OneByteFiles(ops[..|ops| - 1]);
      if op.Program? && op.p.filename.Some? { files := files[op.p.filename.value := [1]]; }
    }
  }

  /** With such images nothing else is kept than what is faithful. */
  lemma {:induction false} KeptIsFaithful(src: Sources, storageSize: nat, s: StorageType, ops: seq<Op>)
    requires 0 < storageSize && OneByteImages(src, ops) && KeptIn(src, storageSize, s, All, ops)
    ensures FaithfulIn(s, ops)
  {
    hide Current, Kept, Faithful;
    if |ops| > 0 {
      KeptIsFaithful(src, storageSize, s, ops[..|ops| - 1]);
      if Kept(src, storageSize, s == Nand, ops[|ops| - 1]) {
        OneByteTells(src, storageSize, s == Nand, ops[|ops| - 1]);
      }
    }
  }

  lemma OneByteTells(src: Sources, storageSize: nat, isNand: bool, op: Op)
    requires 0 < storageSize && Kept(src, storageSize, isNand, op)
    requires op.Program? && op.p.filename.Some? ==>
               op.p.filename.value in src.files && src.files[op.p.filename.value] == [1]
    ensures Faithful(isNand, op)
  {
    hide Padded, ImageSectors, Text;
    if op.Program? && op.p.filename.Some? && !op.p.sparse && op.p.fileOffset > 0 {
      var ss := Effective(op.p.sectorSize, storageSize);
      PackagedTags.OneSector(op.p.(sectorSize := ss));
      assert op.p.fileOffset * ss >= 1 by { AtLeast(op.p.fileOffset, ss); }
      PaddedAt([1], op.p.fileOffset * ss, 1 * ss, 0);
      PaddedAt([1], 0, 1 * ss, 0);
    }
  }

  /** What does nothing is kept. */
  lemma NothingIsKept(src: Sources, storageSize: nat, isNand: bool, op: Op)
    requires Actions(src, storageSize, op) == Some([])
    ensures Kept(src, storageSize, isNand, op)
  {
    hide Padded, FillPattern, ImageSectors, Text;
  }

  /** Image files are where the operations say. */
  predicate Present(files: map<bytes, bytes>, op: Op) {
    op.Program? && op.p.filename.Some? && !op.p.fromZip ==> op.p.filename.value in files
  }

  predicate Proper(files: map<bytes, bytes>, ops: seq<Op>) {
    forall i :: 0 <= i < |ops| ==> WellFormed(ops[i]) && Present(files, ops[i])
  }

  // ----- The meaning of operations on one storage

  function Flat(src: Sources, storageSize: nat, ops: seq<Op>): Option<seq<Action>> {
    if |ops| == 0 then Some([])
    else
      var before, more := Flat(src, storageSize, ops[..|ops| - 1]), Actions(src, storageSize, ops[|ops| - 1]);
      if before.None? || more.None? then None else Some(before.value + more.value)
  }

  function Joined(a: Option<seq<Action>>, b: Option<seq<Action>>): Option<seq<Action>> {
    if a.None? || b.None? then None else Some(a.value + b.value)
  }

  lemma {:induction false} FlatJoins(src: Sources, storageSize: nat, a: seq<Op>, b: seq<Op>)
    ensures Flat(src, storageSize, a + b) == Joined(Flat(src, storageSize, a), Flat(src, storageSize, b))
  {
    hide Actions;
    if |b| == 0 {
      assert a + b == a;
      if Flat(src, storageSize, a).Some? {
        assert Flat(src, storageSize, a).value + [] == Flat(src, storageSize, a).value;
      }
    } else {
      var init := b[..|b| - 1];
      assert (a + b)[..|a + b| - 1] == a + init;
      FlatJoins(src, storageSize, a, init);
      var x, y, z := Flat(src, storageSize, a), Flat(src, storageSize, init), Actions(src, storageSize, b[|b| - 1]);
      if x.Some? && y.Some? && z.Some? {
        assert x.value + y.value + z.value == x.value + (y.value + z.value);
      }
    }
  }

  lemma FlatOne(src: Sources, storageSize: nat, op: Op)
    ensures Flat(src, storageSize, [op]) == Actions(src, storageSize, op)
  {
    hide Actions;
    assert [op][..0] == [];
    if Actions(src, storageSize, op).Some? {
      assert [] + Actions(src, storageSize, op).value == Actions(src, storageSize, op).value;
    }
  }

  predicate NoConfigure(ops: seq<Op>) { forall i :: 0 <= i < |ops| ==> !ops[i].Configure? }

  // ----- Reading back

  /** The documents of storage `s` read back: when they do, and what they then mean. */
  ghost predicate ReadsBack(src: Sources, storageSize: nat, s: StorageType, ops: seq<Op>, c: StorageContext) {
    ReadsPrograms(src, storageSize, s, ops, c.programs) && ReadsPatches(src, storageSize, s, ops, c.patches)
  }

  ghost predicate ReadsPrograms(src: Sources, storageSize: nat, s: StorageType, ops: seq<Op>, tags: seq<Tag>) {
    var read := LoadTags(Archive(src.archive), tags, s == Nand, false);
    && (read.Some? <==> ReadableIn(s, ops))
    && (read.Some? ==> NoConfigure(read.value))
    && (read.Some? && FaithfulIn(s, ops) ==>
          Flat(src, storageSize, read.value) == Trace(src, storageSize, s, Stores, ops))
    && (read.Some? && 0 < storageSize ==>
          Matched(Flat(src, storageSize, read.value), Trace(src, storageSize, s, Stores, ops),
                  KeptIn(src, storageSize, s, Stores, ops)))
  }

  ghost predicate ReadsPatches(src: Sources, storageSize: nat, s: StorageType, ops: seq<Op>, tags: seq<Tag>) {
    var read := LoadPatches(tags);
    && read.Some? && NoConfigure(read.value)
    && (FaithfulIn(s, ops) ==> Flat(src, storageSize, read.value) == Trace(src, storageSize, s, Edits, ops))
    && (0 < storageSize ==>
          Matched(Flat(src, storageSize, read.value), Trace(src, storageSize, s, Edits, ops),
                  KeptIn(src, storageSize, s, Edits, ops)))
  }

  /** The operation that a tag stands for, and that it means the same. */
  ghost predicate TagMeans(src: Sources, storageSize: nat, s: StorageType, op: Op, read: Option<seq<Op>>) {
    && (read.Some? <==> Readable(s == Nand, op))
    && (read.Some? ==> |read.value| == 1 && !read.value[0].Configure?)
    && (read.Some? && Faithful(s == Nand, op) ==>
          Actions(src, storageSize, read.value[0]) == Actions(src, storageSize, op))
    && (read.Some? && 0 < storageSize ==>
          Matched(Actions(src, storageSize, read.value[0]), Actions(src, storageSize, op),
                  Kept(src, storageSize, s == Nand, op)))
  }

  /** As many actions on either side, the same ones exactly when `kept`. */
  predicate Matched(a: Option<seq<Action>>, b: Option<seq<Action>>, kept: bool) {
    SameSize(a, b) && (a == b <==> kept)
  }

  lemma MatchedJoins(a: Option<seq<Action>>, b: Option<seq<Action>>, x: Option<seq<Action>>, y: Option<seq<Action>>,
                     before: bool, last: bool)
    requires Matched(a, b, before) && Matched(x, y, last)
    ensures Matched(Joined(a, x), Joined(b, y), before && last)
  {
    var m, n := a.value + x.value, b.value + y.value;
    assert m[..|a.value|] == a.value && m[|a.value|..] == x.value;
    assert n[..|b.value|] == b.value && n[|b.value|..] == y.value;
  }

  function JoinedOps(a: Option<seq<Op>>, b: Option<seq<Op>>): Option<seq<Op>> {
    if a.None? || b.None? then None else Some(a.value + b.value)
  }

  lemma TagsStep(place: Place, tags: seq<Tag>, tag: Tag, isNand: bool)
    ensures LoadTags(place, tags + [tag], isNand, false)
         == JoinedOps(LoadTags(place, tags, isNand, false), LoadTag(place, tag, isNand, false))
  {
    hide LoadTag;
    assert (tags + [tag])[..|tags|] == tags;
  }

  lemma TraceStep(src: Sources, storageSize: nat, s: StorageType, part: Part, ops: seq<Op>, op: Op)
    requires Current(ops) == Some(s) && InPart(part, op)
    ensures Trace(src, storageSize, s, part, ops + [op])
         == Joined(Trace(src, storageSize, s, part, ops), Actions(src, storageSize, op))
  {
    hide Actions, Current;
    assert (ops + [op])[..|ops|] == ops;
  }

  lemma InStep(s: StorageType, ops: seq<Op>, op: Op)
    requires Current(ops) == Some(s)
    ensures ReadableIn(s, ops + [op]) <==> ReadableIn(s, ops) && Readable(s == Nand, op)
    ensures FaithfulIn(s, ops + [op]) <==> FaithfulIn(s, ops) && Faithful(s == Nand, op)
  {
    hide Readable, Faithful, Current;
    assert (ops + [op])[..|ops|] == ops;
  }

  /** One more operation, with one more tag in the program document. */
  lemma ProgramsGrow(src: Sources, storageSize: nat, s: StorageType, ops: seq<Op>, tags: seq<Tag>, op: Op, tag: Tag)
    requires ReadsPrograms(src, storageSize, s, ops, tags) && Current(ops) == Some(s) && InPart(Stores, op)
    requires TagMeans(src, storageSize, s, op, LoadTag(Archive(src.archive), tag, s == Nand, false))
    ensures ReadsPrograms(src, storageSize, s, ops + [op], tags + [tag])
  {
    hide LoadTag, LoadTags, Readable, Faithful, Actions, Current, Trace, Flat, ReadableIn, FaithfulIn, Kept, KeptIn,
         Matched;
    KeptStep(src, storageSize, s, Stores, ops, op);
    TagsStep(Archive(src.archive), tags, tag, s == Nand);
    TraceStep(src, storageSize, s, Stores, ops, op);
    InStep(s, ops, op);
    var read, last := LoadTags(Archive(src.archive), tags, s == Nand, false),
        LoadTag(Archive(src.archive), tag, s == Nand, false);
    if read.Some? && last.Some? {
      FlatJoins(src, storageSize, read.value, last.value);
      assert last.value == [last.value[0]];
      FlatOne(src, storageSize, last.value[0]);
      if 0 < storageSize {
        MatchedJoins(Flat(src, storageSize, read.value), Trace(src, storageSize, s, Stores, ops),
                     Actions(src, storageSize, last.value[0]), Actions(src, storageSize, op),
                     KeptIn(src, storageSize, s, Stores, ops), Kept(src, storageSize, s == Nand, op));
      }
    }
  }

  /** One more operation, with one more tag in the patch document. */
  lemma PatchesGrow(src: Sources, storageSize: nat, s: StorageType, ops: seq<Op>, tags: seq<Tag>, op: Op, tag: Tag)
    requires ReadsPatches(src, storageSize, s, ops, tags) && Current(ops) == Some(s) && op.Patch?
    requires TagMeans(src, storageSize, s, op, LoadPatch(tag))
    ensures ReadsPatches(src, storageSize, s, ops + [op], tags + [tag])
  {
    hide LoadPatch, Faithful, Actions, Current, Kept, Matched;
    KeptStep(src, storageSize, s, Edits, ops, op);
    assert (ops + [op])[..|ops|] == ops && (tags + [tag])[..|tags|] == tags;
    var read, last := LoadPatches(tags), LoadPatch(tag);
    FlatJoins(src, storageSize, read.value, last.value);
    assert last.value == [last.value[0]];
    FlatOne(src, storageSize, last.value[0]);
    if 0 < storageSize {
      MatchedJoins(Flat(src, storageSize, read.value), Trace(src, storageSize, s, Edits, ops),
                   Actions(src, storageSize, last.value[0]), Actions(src, storageSize, op),
                   KeptIn(src, storageSize, s, Edits, ops), Kept(src, storageSize, s == Nand, op));
    }
  }

  /** One more operation that the documents need not mention. */
  lemma NothingToAdd(src: Sources, storageSize: nat, s: StorageType, ops: seq<Op>, op: Op)
    requires Current(ops) != Some(s) || (Readable(s == Nand, op) && Actions(src, storageSize, op) == Some([]))
    ensures ReadableIn(s, ops + [op]) <==> ReadableIn(s, ops)
    ensures FaithfulIn(s, ops + [op]) ==> FaithfulIn(s, ops)
    ensures Trace(src, storageSize, s, Stores, ops + [op]) == Trace(src, storageSize, s, Stores, ops)
    ensures Trace(src, storageSize, s, Edits, ops + [op]) == Trace(src, storageSize, s, Edits, ops)
    ensures KeptIn(src, storageSize, s, Stores, ops + [op]) <==> KeptIn(src, storageSize, s, Stores, ops)
    ensures KeptIn(src, storageSize, s, Edits, ops + [op]) <==> KeptIn(src, storageSize, s, Edits, ops)
  {
    hide Actions, Readable, Faithful, Current, InPart, Kept;
    KeptStep(src, storageSize, s, Stores, ops, op);
    KeptStep(src, storageSize, s, Edits, ops, op);
    if Current(ops) == Some(s) { NothingIsKept(src, storageSize, s == Nand, op); }
    assert (ops + [op])[..|ops|] == ops;
    TraceUnchanged(src, storageSize, s, Stores, ops, op);
    TraceUnchanged(src, storageSize, s, Edits, ops, op);
  }

  lemma TraceUnchanged(src: Sources, storageSize: nat, s: StorageType, part: Part, ops: seq<Op>, op: Op)
    requires Current(ops) != Some(s) || !InPart(part, op) || Actions(src, storageSize, op) == Some([])
    ensures Trace(src, storageSize, s, part, ops + [op]) == Trace(src, storageSize, s, part, ops)
  {
    hide Actions, Current;
    assert (ops + [op])[..|ops|] == ops;
    if Trace(src, storageSize, s, part, ops).Some? {
      assert Trace(src, storageSize, s, part, ops).value + [] == Trace(src, storageSize, s, part, ops).value;
    }
  }

  /** An operation of one part leaves the other part's trace alone. */
  lemma OtherPart(src: Sources, storageSize: nat, s: StorageType, ops: seq<Op>, op: Op)
    ensures op.Patch? ==> Trace(src, storageSize, s, Stores, ops + [op]) == Trace(src, storageSize, s, Stores, ops)
    ensures !op.Patch? ==> Trace(src, storageSize, s, Edits, ops + [op]) == Trace(src, storageSize, s, Edits, ops)
    ensures op.Patch? ==>
              (KeptIn(src, storageSize, s, Stores, ops + [op]) <==> KeptIn(src, storageSize, s, Stores, ops))
    ensures !op.Patch? ==>
              (KeptIn(src, storageSize, s, Edits, ops + [op]) <==> KeptIn(src, storageSize, s, Edits, ops))
  {
    hide Actions, Current, Kept;
    KeptStep(src, storageSize, s, Stores, ops, op);
    KeptStep(src, storageSize, s, Edits, ops, op);
    if op.Patch? { TraceUnchanged(src, storageSize, s, Stores, ops, op); }
    else { TraceUnchanged(src, storageSize, s, Edits, ops, op); }
  }

  lemma FaithfulBefore(s: StorageType, ops: seq<Op>, op: Op)
    ensures FaithfulIn(s, ops + [op]) ==> FaithfulIn(s, ops)
    ensures op.Patch? ==> (ReadableIn(s, ops + [op]) <==> ReadableIn(s, ops))
  {
    hide Current, Faithful;
    assert (ops + [op])[..|ops|] == ops;
  }

  // ----- The tags of an operation

  lemma OffsetFits(op: ProgramOp)
    requires WellFormed(Program(op))
    ensures IsUint(op.fileOffset) && IsUint(0)
  {
  }

  lemma ProgramTagMeans(src: Sources, storageSize: nat, s: StorageType, op: ProgramOp, name: bytes)
    requires WellFormed(Program(op)) && op.filename.Some? && !op.fromZip && op.filename.value in src.files
    requires name != [] && name in src.archive && KnownChunk(op)
    requires !op.sparse ==> src.archive[name] == src.files[op.filename.value]
    requires op.sparse ==> Carries(op, src.files[op.filename.value], src.archive[name])
    ensures TagMeans(src, storageSize, s, Program(op),
                     LoadTag(Archive(src.archive), ProgramTag(op, name, if op.sparse then 0 else op.fileOffset), s
                             == Nand, false))
  {
    hide ProgramTag, ExpandProgram, Carries, ProgramActions, WellFormed, Kept, SameSize;
    var offset := if op.sparse then 0 else op.fileOffset;
    var tag := ProgramTag(op, name, offset);
    assert tag.name == "program" by { ProgramTagAttrs(op, name, offset); }
    OffsetFits(op);
    ProgramReadsBack(Archive(src.archive), op, name, offset, s == Nand);
    if Readable(s == Nand, Program(op)) {
      assert ProgramsOf([PackagedProgram(op, name, offset)]) == [Program(PackagedProgram(op, name, offset))];
      if Faithful(s == Nand, Program(op)) {
        assert Effective(op.sectorSize, storageSize) > 0 ==>
                 Carries(op.(sectorSize := Effective(op.sectorSize, storageSize)), src.files[op.filename.value],
                         src.archive[name])
          by { CarriesEffective(op, storageSize, src.files[op.filename.value], src.archive[name]); }
        ProgramSurvives(src, src.archive, storageSize, op, name);
      }
      if 0 < storageSize {
        CarriesEffective(op, storageSize, src.files[op.filename.value], src.archive[name]);
        ProgramKeptIff(src, src.archive, storageSize, op, name, s == Nand);
      }
    }
  }

  lemma CarriesEffective(op: ProgramOp, storageSize: nat, content: bytes, member: bytes)
    requires KnownChunk(op) && (!op.sparse ==> member == content) && (op.sparse ==> Carries(op, content, member))
    ensures Effective(op.sectorSize, storageSize) > 0 ==>
              Carries(op.(sectorSize := Effective(op.sectorSize, storageSize)), content, member)
  {
    hide Padded, FillPattern;
  }

  lemma EraseTagMeans(src: Sources, storageSize: nat, s: StorageType, op: EraseOp)
    requires WellFormed(Erase(op))
    ensures TagMeans(src, storageSize, s, Erase(op), LoadTag(Archive(src.archive), EraseTag(op), s == Nand, false))
  {
    hide ReadErase, WellFormed;
    EraseReadsBack(op, s == Nand);
    assert EraseTag(op).name == "erase";
  }

  lemma PatchTagMeans(src: Sources, storageSize: nat, s: StorageType, op: PatchOp)
    requires WellFormed(Patch(op)) && op.filename == Some(Text(DISK))
    ensures TagMeans(src, storageSize, s, Patch(op), LoadPatch(PatchTag(op)))
  {
    hide LoadPatch, WellFormed, PatchTag, Text;
    PatchReadsBack(op);
  }

  // ----- One more operation

  /** What the context of a storage becomes when an operation is packed. */
  lemma ContextAfter(files: map<bytes, bytes>, k: Package, current: Option<StorageType>, op: Op, s: StorageType)
    requires Follows(k, current) && PackOp(files, k, op).Some?
    ensures var c, c' := ContextOf(k, s), ContextOf(PackOp(files, k, op).value, s);
            if op.Configure? || current != Some(s) then c' == c
            else match op
              case Program(p) =>
                if p.filename.None? then c' == c
                else
                  && !p.fromZip && Register(files, k, k.Here().storage, p).Some?
                  && c' == c.(programs := c.programs + [ProgramTag(p, Register(files, k, k.Here().storage, p).value.1,
                                                                   if p.sparse then 0 else p.fileOffset)])
              case Erase(e) => c' == c.(programs := c.programs + [EraseTag(e)])
              case Patch(q) =>
                c' == if q.filename == Some(Text(DISK)) then c.(patches := c.patches + [PatchTag(q)]) else c
  {
    hide FindStorage, Register, ProgramTag, EraseTag, PatchTag, Text, PackConfigure;
    if op.Configure? {
      ConfigureFollows(k, current, op.storage, s);
    } else if op.Program? && op.p.filename.Some? {
      var (k', name) := Register(files, k, k.Here().storage, op.p).value;
      var c := k'.Here();
      ContextReplaced(k', current,
                      c.(programs := c.programs + [ProgramTag(op.p, name, if op.p.sparse then 0 else op.p.fileOffset)]),
                          s);
    } else if op.Erase? {
      var c := k.Here();
      ContextReplaced(k, current, c.(programs := c.programs + [EraseTag(op.e)]), s);
    } else if op.Patch? {
      var c := k.Here();
      ContextReplaced(k, current, c.(patches := c.patches + [PatchTag(op.q)]), s);
    }
  }

  lemma OneMore(src: Sources, storageSize: nat, s: StorageType, ops: seq<Op>, op: Op, k: Package)
    requires Follows(k, Current(ops)) && Sound(src.files, k) && PackOp(src.files, k, op).Some?
    requires WellFormed(op) && Present(src.files, op)
    requires Extends(PackOp(src.files, k, op).value.members, src.archive)
    requires ReadsBack(src, storageSize, s, ops, ContextOf(k, s))
    ensures ReadsBack(src, storageSize, s, ops + [op], ContextOf(PackOp(src.files, k, op).value, s))
  {
    hide Current, Follows, PackOp, ReadsPrograms, ReadsPatches, ContextOf, Sound, ProgramTag, EraseTag, PatchTag, Text,
        WellFormed;
    ContextAfter(src.files, k, Current(ops), op, s);
    var c := ContextOf(k, s);
    if op.Configure? || Current(ops) != Some(s) {
      Unmentioned(src, storageSize, s, ops, op, c);
    } else {
      match op {
        case Program(p) =>
          if p.filename.None? {
            Unmentioned(src, storageSize, s, ops, op, c);
          } else {
            var name := NameOf(src, k, Current(ops), op, s);
            ProgramTagMeans(src, storageSize, s, p, name);
            MentionedInPrograms(src, storageSize, s, ops, op, c,
                                ProgramTag(p, name, if p.sparse then 0 else p.fileOffset));
          }
        case Erase(e) =>
          EraseTagMeans(src, storageSize, s, e);
          MentionedInPrograms(src, storageSize, s, ops, op, c, EraseTag(e));
        case Patch(q) =>
          if q.filename == Some(Text(DISK)) {
            PatchTagMeans(src, storageSize, s, q);
            MentionedInPatches(src, storageSize, s, ops, op, c, PatchTag(q));
          } else {
            Unmentioned(src, storageSize, s, ops, op, c);
          }
      }
    }
  }

  lemma Unmentioned(src: Sources, storageSize: nat, s: StorageType, ops: seq<Op>, op: Op, c: StorageContext)
    requires ReadsBack(src, storageSize, s, ops, c)
    requires Current(ops) != Some(s) || (Readable(s == Nand, op) && Actions(src, storageSize, op) == Some([]))
    ensures ReadsBack(src, storageSize, s, ops + [op], c)
  {
    hide Readable, Actions, ReadableIn, FaithfulIn, Trace, Flat, LoadTags, LoadPatches, KeptIn, Matched;
    NothingToAdd(src, storageSize, s, ops, op);
  }

  lemma MentionedInPrograms(src: Sources, storageSize: nat, s: StorageType, ops: seq<Op>, op: Op, c: StorageContext,
                            tag: Tag)
    requires ReadsBack(src, storageSize, s, ops, c) && Current(ops) == Some(s) && InPart(Stores, op)
    requires TagMeans(src, storageSize, s, op, LoadTag(Archive(src.archive), tag, s == Nand, false))
    ensures ReadsBack(src, storageSize, s, ops + [op], c.(programs := c.programs + [tag]))
  {
    hide ReadsPrograms, TagMeans, Trace, Flat, LoadPatches, FaithfulIn, KeptIn, Matched;
    ProgramsGrow(src, storageSize, s, ops, c.programs, op, tag);
    OtherPart(src, storageSize, s, ops, op);
    FaithfulBefore(s, ops, op);
  }

  lemma MentionedInPatches(src: Sources, storageSize: nat, s: StorageType, ops: seq<Op>, op: Op, c: StorageContext,
                           tag: Tag)
    requires ReadsBack(src, storageSize, s, ops, c) && Current(ops) == Some(s) && op.Patch?
    requires TagMeans(src, storageSize, s, op, LoadPatch(tag))
    ensures ReadsBack(src, storageSize, s, ops + [op], c.(patches := c.patches + [tag]))
  {
    hide ReadsPatches, TagMeans, Trace, Flat, LoadTags, FaithfulIn, ReadableIn, KeptIn, Matched;
    PatchesGrow(src, storageSize, s, ops, c.patches, op, tag);
    OtherPart(src, storageSize, s, ops, op);
    FaithfulBefore(s, ops, op);
  }

  /** The name of the image in the package, and that it is there as it should be. */
  lemma NameOf(src: Sources, k: Package, current: Option<StorageType>, op: Op, s: StorageType) returns (name: bytes)
    requires Follows(k, current) && current == Some(s) && Sound(src.files, k) && PackOp(src.files, k, op).Some?
    requires op.Program? && op.p.filename.Some? && Present(src.files, op)
    requires Extends(PackOp(src.files, k, op).value.members, src.archive)
    ensures !op.p.fromZip && Register(src.files, k, k.Here().storage, op.p).Some?
    ensures name == Register(src.files, k, k.Here().storage, op.p).value.1
    ensures name != [] && name in src.archive && KnownChunk(op.p) && op.p.filename.value in src.files
    ensures !op.p.sparse ==> src.archive[name] == src.files[op.p.filename.value]
    ensures op.p.sparse ==> Carries(op.p, src.files[op.p.filename.value], src.archive[name])
  {
    hide Register, ProgramTag, Sound, FindStorage, Carries;
    ImageRegistered(src.files, k, k.Here().storage, op.p);
    var (k', n) := Register(src.files, k, k.Here().storage, op.p).value;
    name := n;
    assert n in k'.members && PackOp(src.files, k, op).value.members == k'.members;
  }

  /** All the operations, packed and read back from any archive that has the package's members. */
  lemma {:induction false} AllRead(src: Sources, storageSize: nat, s: StorageType, ops: seq<Op>)
    requires PackOps(src.files, ops).Some? && Proper(src.files, ops)
    requires Extends(PackOps(src.files, ops).value.members, src.archive)
    ensures ReadsBack(src, storageSize, s, ops, ContextOf(PackOps(src.files, ops).value, s))
  {
    hide PackOp, ReadsBack, ContextOf, Sound, Follows, Present, WellFormed, Current;
    if |ops| == 0 {
      NothingRead(src, storageSize, s);
    } else {
      var init, op := ops[..|ops| - 1], ops[|ops| - 1];
      assert init + [op] == ops;
      var k := PackOps(src.files, init).value;
      OpsKeep(src.files, init);
      OpKeeps(src.files, k, op);
      OpsFollow(src.files, init);
      AllRead(src, storageSize, s, init);
      OneMore(src, storageSize, s, init, op, k);
    }
  }

  lemma NothingRead(src: Sources, storageSize: nat, s: StorageType)
    ensures ReadsBack(src, storageSize, s, [], ContextOf(EMPTY_PACKAGE, s))
  {
  }
}

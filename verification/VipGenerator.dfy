/** The digest table generator: one digest per frame, then the chain of tables. */
module VipGenerator {
  import opened Bytes
  import opened Sha256Spec
  import opened Sha2
  import opened VipTables

  /** The files of the table directory, by their roles. */
  datatype TableFile =
    | FullTable          // DIGEST_TABLE.bin
    | ToSign             // DigestsToSign.bin
    | Chained(i: nat)    // ChainedTableOfDigests<i>.bin

  const DIGESTS_PER_BUF := 16

  class Generator {
    const ctx: Context
    var files: map<TableFile, bytes>
    var digestNumWritten: nat

    ghost predicate Valid()
      reads this
    {
      FullTable in files && IsDigestTable(files[FullTable], digestNumWritten)
    }

    constructor (existing: map<TableFile, bytes>)
      ensures Valid() && digestNumWritten == 0
      ensures files == existing[FullTable := []]
      ensures fresh(ctx) && fresh(ctx.state) && fresh(ctx.buffer) && ctx.Allocated()
    {
      ctx := new Context();
      files := existing[FullTable := []];
      digestNumWritten := 0;
    }

    method ChunkInit()
      requires ctx.Allocated()
      modifies ctx, ctx.state, ctx.buffer
      ensures ctx.Valid() && ctx.Message == []
    {
      ctx.Init();
    }

    method ChunkUpdate(buf: bytes)
      requires ctx.Valid()
      modifies ctx, ctx.state, ctx.buffer
      ensures ctx.Valid() && ctx.Message == old(ctx.Message) + buf
    {
      ctx.Update(buf);
    }

    /** Append the digest of the frame hashed since `ChunkInit` to the full table. */
    method ChunkStore()
      requires Valid() && ctx.Valid()
      modifies this, ctx, ctx.state, ctx.buffer
      ensures Valid() && ctx.Allocated()
      ensures digestNumWritten == old(digestNumWritten) + 1
      ensures files == old(files)[FullTable := old(files[FullTable]) + Sha256(old(ctx.Message))]
    {
      hide Sha256, Absorbed;
      var hash := ctx.Final();
      files := files[FullTable := files[FullTable] + hash];
      digestNumWritten := digestNumWritten + 1;
    }

    method WriteOutputFile(name: TableFile, append: bool, data: bytes)
      modifies this`files
      ensures files == old(files)[name := (if append && name in old(files) then old(files)[name] else []) + data]
    {
      files := files[name := (if append && name in files then files[name] else []) + data];
    }

    /**
     * Copy `count` digests from one table to another, 16 at a time, hashing them on the
     * way when a context is given. Fails when the source is too short.
     */
    method WriteDigestsToTable(src: TableFile, dest: TableFile, start: nat, count: nat, outCtx: Context?)
      returns (ok: bool)
      requires src in files && src != dest
      requires outCtx != null ==> outCtx.Allocated()
      modifies this`files
      modifies if outCtx == null then {} else {outCtx, outCtx.state, outCtx.buffer}
      ensures ok <==> count == 0 || 32 * (start + count) <= |old(files)[src]|
      ensures dest in files && files == old(files)[dest := files[dest]]
      ensures ok && count > 0 ==> files[dest] == old(files)[src][32 * start..32 * (start + count)]
      ensures count == 0 ==> files[dest] == []
      ensures outCtx != null ==> outCtx.Valid() && outCtx.Message == files[dest]
    {
      hide Context.Valid, Sha256, Concat, Copied;
      ghost var files0 := files;
      var source := files[src];
      files := files[dest := []];
      if outCtx != null { outCtx.Init(); }
      CopiedBounds(source, 32 * start, 32 * (start + count));
      var fd := 32 * start;
      var written := 0;
      while written < count * 32
        invariant 0 <= written <= count * 32 && written % 32 == 0
        invariant fd == 32 * start + written
        invariant dest in files && files == files0[dest := files[dest]]
        invariant written > 0 ==> fd <= |source|
        invariant files[dest] == Copied(source, 32 * start, fd)
        invariant outCtx != null ==> outCtx.Valid() && outCtx.Message == files[dest]
      {
        var toRead := Min(count * 32 - written, DIGESTS_PER_BUF * 32);
        if fd + toRead > |source| {
          return false;
        }
        var buf := source[fd..fd + toRead];
        AppendDigests(dest, buf, outCtx);
        CopiedGrows(source, 32 * start, fd, fd + toRead);
        fd := fd + toRead;
        written := written + toRead;
      }
      return true;
    }

    /** Write digests that were read, and hash them when a context is given. */
    method AppendDigests(dest: TableFile, buf: bytes, outCtx: Context?)
      requires dest in files && (outCtx != null ==> outCtx.Valid())
      modifies this`files
      modifies if outCtx == null then {} else {outCtx, outCtx.state, outCtx.buffer}
      ensures files == old(files)[dest := old(files)[dest] + buf]
      ensures outCtx != null ==> outCtx.Valid() && outCtx.Message == old(outCtx.Message) + buf
    {
      hide Context.Valid;
      files := files[dest := files[dest] + buf];
      if outCtx != null { outCtx.Update(buf); }
    }

    /** Step 1 of `create_chained_tables`: the digests of the table to sign. */
    method WriteSignedDigests() returns (ok: bool)
      requires Valid()
      modifies this`files
      ensures ok && Valid() && ToSign in files && files == old(files)[ToSign := files[ToSign]]
      ensures files[ToSign] == SignedPayloadDigests(old(files)[FullTable], digestNumWritten)
    {
      var total := digestNumWritten;
      var toSignCount := if total < 53 then total else 53;
      ok := WriteDigestsToTable(FullTable, ToSign, 0, toSignCount, null);
    }

    /** One iteration of step 2: chained table `idx`, and the context that hashed it. */
    method WriteChainedTable(idx: nat, remaining: nat, outCtx: Context, ghost full: bytes) returns (left: nat)
      requires Valid() && files[FullTable] == full && outCtx.Allocated()
      requires idx < ChainedCount(digestNumWritten) && remaining == digestNumWritten - TableStart(idx)
      modifies this`files, outCtx, outCtx.state, outCtx.buffer
      ensures var n := digestNumWritten;
              && left == (if idx + 1 == ChainedCount(n) then 0 else n - TableStart(idx + 1))
              && Chained(idx) in files && files[Chained(idx)] == UnlinkedTable(full, n, idx)
              && outCtx.Valid() && outCtx.Message == UnlinkedTable(full, n, idx)
      ensures files == old(files)[Chained(idx) := files[Chained(idx)]]
    {
      hide Absorbed, Sha256;
      ghost var n := digestNumWritten;
      TableBounds(n, idx);
      var tableDigests := if remaining > 255 then 255 else remaining;
      var dest := Chained(idx);
      var ok := WriteDigestsToTable(FullTable, dest, digestNumWritten - remaining, tableDigests, outCtx);
      assert files[dest] == ChainedPayload(full, n, idx);
      left := remaining - tableDigests;
      if left == 0 {
        // Add zero (the packet can't be a multiple of 512 bytes)
        WriteOutputFile(dest, true, [0]);
        outCtx.Update([0]);
      } else {
        assert ChainedPayload(full, n, idx) + [] == ChainedPayload(full, n, idx);
      }
    }

    /** Step 2: the digests of every chained table, each hashed into its own context. */
    method WriteChainedDigests(ctxs: seq<Context>) returns (ok: bool)
      requires Valid() && |ctxs| == ChainedCount(digestNumWritten)
      requires Separate(ctxs)
      modifies this`files, Footprint(ctxs)
      ensures ok && Valid()
      ensures var full, n := old(files)[FullTable], digestNumWritten;
              forall k :: 0 <= k < |ctxs| ==>
                && Chained(k) in files && files[Chained(k)] == UnlinkedTable(full, n, k)
                && ctxs[k].Valid() && ctxs[k].Message == UnlinkedTable(full, n, k)
      ensures files[FullTable] == old(files)[FullTable]
      ensures ChangedOnlyTables(old(files), files, |ctxs|, false)
    {
      hide Context.Valid, UnlinkedTable, WrittenUpTo, ChangedOnlyTables, ChainedCount;
      ghost var full, n := files[FullTable], digestNumWritten;
      WriteStart(files, full, n);
      NothingChanged(files, |ctxs|, false);
      TableBounds(n, 0);
      var remaining := if digestNumWritten > 53 then digestNumWritten - 53 else 0;
      var idx := 0;
      while remaining > 0
        invariant 0 <= idx <= |ctxs|
        invariant remaining == if idx == |ctxs| then 0 else n - TableStart(idx)
        invariant FullTable in files && files[FullTable] == full
        invariant ChangedOnlyTables(old(files), files, |ctxs|, false)
        invariant WrittenUpTo(files, full, n, idx)
        invariant forall k :: 0 <= k < idx ==> ctxs[k].Valid() && ctxs[k].Message == UnlinkedTable(full, n, k)
      {
        TableBounds(n, idx);
        WriteStep(files, full, n, idx);
        TableChanged(old(files), files, |ctxs|, false, Chained(idx), UnlinkedTable(full, n, idx));
        remaining := WriteChainedTable(idx, remaining, ctxs[idx], full);
        idx := idx + 1;
      }
      TableBounds(n, idx);
      WriteEnd(files, full, n);
      return true;
    }

    /** One iteration of step 3: finalize a copy of table `i`'s context and append the hash. */
    method LinkTable(i: nat, cached: Context, next: bytes, ghost full: bytes) returns (hash: bytes)
      requires IsDigestTable(full, digestNumWritten) && i < ChainedCount(digestNumWritten)
      requires Caches(cached, UnlinkedTable(full, digestNumWritten, i))
      requires Follows(full, digestNumWritten, i, next)
      requires Previous(i) in files
      modifies this`files
      ensures hash == Sha256(ChainedTable(full, digestNumWritten, i))
      ensures files == old(files)[Previous(i) := old(files)[Previous(i)] + hash]
    {
      hide Context.Valid, Sha256, UnlinkedTable, ChainedTable;
      LinkCompletes(full, digestNumWritten, i);
      var ctx := new Context();
      ctx.Assign(cached);
      if i + 1 < ChainedCount(digestNumWritten) {
        ctx.Update(next);
      }
      hash := ctx.Final();
      WriteOutputFile(Previous(i), true, hash);
    }

    /** Step 3: hash and append backwards, from copies of the cached contexts. */
    method LinkTables(ctxs: seq<Context>, ghost full: bytes)
      requires IsDigestTable(full, digestNumWritten) && |ctxs| == ChainedCount(digestNumWritten)
      requires Separate(ctxs)
      requires ToSign in files && files[ToSign] == SignedPayloadDigests(full, digestNumWritten)
      requires forall k :: 0 <= k < |ctxs| ==>
                 && Chained(k) in files && files[Chained(k)] == UnlinkedTable(full, digestNumWritten, k)
                 && ctxs[k].Valid() && ctxs[k].Message == UnlinkedTable(full, digestNumWritten, k)
      modifies this`files
      ensures HoldsTables(files, full, digestNumWritten)
      ensures ChangedOnlyTables(old(files), files, |ctxs|, true)
    {
      hide Context.Valid, LinkedFrom, ChangedOnlyTables, ChainedCount, UnlinkedTable, ChainedTable, Sha256;
      LinkStart(files, full, digestNumWritten);
      NothingChanged(files, |ctxs|, true);
      var hash: bytes := [];
      for i := |ctxs| downto 0
        invariant forall k :: 0 <= k < |ctxs| ==>
                    ctxs[k].Valid() && ctxs[k].Message == UnlinkedTable(full, digestNumWritten, k)
        invariant i < |ctxs| ==> hash == Sha256(ChainedTable(full, digestNumWritten, i))
        invariant LinkedFrom(files, full, digestNumWritten, i)
        invariant ChangedOnlyTables(old(files), files, |ctxs|, true)
      {
        LinkStep(files, full, digestNumWritten, i);
        TableChanged(old(files), files, |ctxs|, true, Previous(i),
                     files[Previous(i)] + Sha256(ChainedTable(full, digestNumWritten, i)));
        hash := LinkTable(i, ctxs[i], hash, full);
      }
      LinkEnd(files, full, digestNumWritten);
    }

    /**
     * `create_chained_tables`: the table to sign and all chained tables, linked. No table
     * is read back: `LinkTables` only appends.
     */
    method CreateChainedTables() returns (ok: bool)
      requires Valid()
      modifies this`files
      ensures ok && Valid() && files[FullTable] == old(files)[FullTable]
      ensures HoldsTables(files, files[FullTable], digestNumWritten)
      ensures ChangedOnlyTables(old(files), files, ChainedCount(digestNumWritten), true)
    {
      hide Absorbed, Sha256, UnlinkedTable, ChainedTable, HoldsTables, SignedPayloadDigests, Context.Valid;
      var chainedNum := 0;
      if digestNumWritten > 53 {
        var remaining := digestNumWritten - 53;
        chainedNum := (remaining + 255 - 1) / 255;
      }
      var ctxs := NewContexts(chainedNum);
      ghost var full := files[FullTable];
      ok := WriteSignedDigests();
      ok := WriteChainedDigests(ctxs);
      LinkTables(ctxs, full);
    }
  }

  /** What has been copied of a source from `a` up to `b`. */
  function Copied(s: bytes, a: nat, b: nat): bytes { if a <= b <= |s| then s[a..b] else [] }

  lemma CopiedGrows(s: bytes, a: nat, b: nat, c: nat)
    requires a <= b <= c <= |s|
    ensures Copied(s, a, b) + s[b..c] == Copied(s, a, c)
  {
  }

  lemma CopiedBounds(s: bytes, a: nat, b: nat)
    ensures Copied(s, a, a) == []
    ensures a <= b <= |s| ==> Copied(s, a, b) == s[a..b]
  {
  }

  /** A context that has taken in `m`. */
  ghost predicate Caches(ctx: Context, m: bytes)
    reads ctx, ctx.state, ctx.buffer
  {
    ctx.Valid() && ctx.Message == m
  }

  /** The hash of the table behind table `i`, if there is one. */
  ghost predicate Follows(full: bytes, n: nat, i: nat, next: bytes)
    requires IsDigestTable(full, n) && i < ChainedCount(n)
  {
    i + 1 < ChainedCount(n) ==> next == Sha256(ChainedTable(full, n, i + 1))
  }

  /** The file a table's hash is appended to. */
  function Previous(i: nat): TableFile {
    if i == 0 then ToSign else Chained(i - 1)
  }

  /** The first `count` chained tables, not linked yet. */
  ghost predicate WrittenUpTo(files: map<TableFile, bytes>, full: bytes, n: nat, count: nat)
    requires IsDigestTable(full, n) && count <= ChainedCount(n)
  {
    forall k :: 0 <= k < count ==> Chained(k) in files && files[Chained(k)] == UnlinkedTable(full, n, k)
  }

  lemma WriteStart(files: map<TableFile, bytes>, full: bytes, n: nat)
    requires IsDigestTable(full, n)
    ensures WrittenUpTo(files, full, n, 0)
  {
  }

  lemma WriteStep(files: map<TableFile, bytes>, full: bytes, n: nat, k: nat)
    requires IsDigestTable(full, n) && k < ChainedCount(n) && WrittenUpTo(files, full, n, k)
    ensures WrittenUpTo(files[Chained(k) := UnlinkedTable(full, n, k)], full, n, k + 1)
  {
    hide UnlinkedTable;
  }

  lemma WriteEnd(files: map<TableFile, bytes>, full: bytes, n: nat)
    requires IsDigestTable(full, n) && WrittenUpTo(files, full, n, ChainedCount(n))
    ensures forall k :: 0 <= k < ChainedCount(n) ==>
              Chained(k) in files && files[Chained(k)] == UnlinkedTable(full, n, k)
  {
  }

  /** The tables once those from `i` on have been hashed and linked to. */
  ghost predicate LinkedFrom(files: map<TableFile, bytes>, full: bytes, n: nat, i: nat)
    requires IsDigestTable(full, n) && i <= ChainedCount(n)
  {
    && ToSign in files
    && files[ToSign] == (if i == 0 then TableToSign(full, n) else SignedPayloadDigests(full, n))
    && forall k :: 0 <= k < ChainedCount(n) ==>
         && Chained(k) in files
         && files[Chained(k)] == if i <= k + 1 then ChainedTable(full, n, k) else UnlinkedTable(full, n, k)
  }

  lemma LinkStart(files: map<TableFile, bytes>, full: bytes, n: nat)
    requires IsDigestTable(full, n)
    requires ToSign in files && files[ToSign] == SignedPayloadDigests(full, n)
    requires forall k :: 0 <= k < ChainedCount(n) ==>
               Chained(k) in files && files[Chained(k)] == UnlinkedTable(full, n, k)
    ensures LinkedFrom(files, full, n, ChainedCount(n))
  {
    hide SignedPayloadDigests, UnlinkedTable, ChainedTable;
    if ChainedCount(n) > 0 { LinkCompletes(full, n, ChainedCount(n) - 1); }
  }

  lemma LinkStep(files: map<TableFile, bytes>, full: bytes, n: nat, i: nat)
    requires IsDigestTable(full, n) && i < ChainedCount(n)
    requires LinkedFrom(files, full, n, i + 1)
    ensures Previous(i) in files
    ensures LinkedFrom(files[Previous(i) := files[Previous(i)] + Sha256(ChainedTable(full, n, i))], full, n, i)
  {
    hide Sha256, SignedPayloadDigests, UnlinkedTable, ChainedTable, ChainedCount, TableToSign;
    if i == 0 {
      FirstTableLinks(full, n);
      FirstLinked(files, full, n);
    } else {
      LinkCompletes(full, n, i - 1);
      LaterLinked(files, full, n, i);
    }
  }

  lemma FirstLinked(files: map<TableFile, bytes>, full: bytes, n: nat)
    requires IsDigestTable(full, n) && 0 < ChainedCount(n) && LinkedFrom(files, full, n, 1)
    ensures LinkedFrom(files[ToSign := TableToSign(full, n)], full, n, 0)
  {
    hide UnlinkedTable, ChainedTable, ChainedCount, TableToSign;
  }

  lemma LaterLinked(files: map<TableFile, bytes>, full: bytes, n: nat, i: nat)
    requires IsDigestTable(full, n) && 0 < i < ChainedCount(n) && LinkedFrom(files, full, n, i + 1)
    ensures LinkedFrom(files[Chained(i - 1) := ChainedTable(full, n, i - 1)], full, n, i)
  {
    hide UnlinkedTable, ChainedTable, ChainedCount, TableToSign, SignedPayloadDigests;
  }

  lemma FirstTableLinks(full: bytes, n: nat)
    requires IsDigestTable(full, n) && ChainedCount(n) > 0
    ensures TableToSign(full, n) == SignedPayloadDigests(full, n) + Sha256(ChainedTable(full, n, 0))
  {
    hide Sha256, SignedPayloadDigests, ChainedTable;
  }

  lemma LinkEnd(files: map<TableFile, bytes>, full: bytes, n: nat)
    requires IsDigestTable(full, n) && LinkedFrom(files, full, n, 0)
    ensures HoldsTables(files, full, n)
  {
  }

  /** What the table directory holds after generation. */
  ghost predicate HoldsTables(files: map<TableFile, bytes>, full: bytes, n: nat) {
    && IsDigestTable(full, n)
    && ToSign in files && files[ToSign] == TableToSign(full, n)
    && forall k :: 0 <= k < ChainedCount(n) ==>
         Chained(k) in files && files[Chained(k)] == ChainedTable(full, n, k)
  }

  /** Nothing changed but the first `count` chained tables and, with `signed`, the one to sign. */
  ghost predicate ChangedOnlyTables(before: map<TableFile, bytes>, after: map<TableFile, bytes>,
                                    count: nat, signed: bool) {
    && before.Keys <= after.Keys
    && forall f :: f in after && !(f == ToSign && signed) && !(f.Chained? && f.i < count) ==>
         f in before && after[f] == before[f]
  }

  lemma NothingChanged(files: map<TableFile, bytes>, count: nat, signed: bool)
    ensures ChangedOnlyTables(files, files, count, signed)
  {
  }

  lemma TableChanged(before: map<TableFile, bytes>, files: map<TableFile, bytes>, count: nat, signed: bool,
                     name: TableFile, content: bytes)
    requires ChangedOnlyTables(before, files, count, signed)
    requires (name == ToSign && signed) || (name.Chained? && name.i < count)
    ensures ChangedOnlyTables(before, files[name := content], count, signed)
  {
  }

  /** Contexts that share no memory. */
  ghost predicate Separate(ctxs: seq<Context>) {
    && (forall i :: 0 <= i < |ctxs| ==> ctxs[i].Allocated())
    && (forall i, j :: 0 <= i < j < |ctxs| ==>
          ctxs[i] != ctxs[j] && ctxs[i].state != ctxs[j].state && ctxs[i].buffer != ctxs[j].buffer)
  }

  ghost function Footprint(ctxs: seq<Context>): set<object> {
    (set i | 0 <= i < |ctxs| :: ctxs[i] as object)
    + (set i | 0 <= i < |ctxs| :: ctxs[i].state as object)
    + (set i | 0 <= i < |ctxs| :: ctxs[i].buffer as object)
  }

  method NewContexts(count: nat) returns (ctxs: seq<Context>)
    ensures |ctxs| == count && Separate(ctxs) && fresh(Footprint(ctxs))
  {
    ctxs := [];
    for i := 0 to count
      invariant |ctxs| == i && Separate(ctxs) && fresh(Footprint(ctxs))
    {
      var ctx := new Context();
      ghost var before := ctxs;
      ctxs := ctxs + [ctx];
      forall k | 0 <= k < |before| ensures ctxs[k] in Footprint(before) && ctxs[k].state in Footprint(before)
                                           && ctxs[k].buffer in Footprint(before) {}
    }
  }
}

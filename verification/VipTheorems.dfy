/** The end-to-end theorems about VIP: agreement, capacity, detection, authenticity of the chain. */
module VipTheorems {
  import opened Bytes
  import opened Options
  import opened Sha256Spec
  import opened VipTables
  import opened VipGenerator
  import opened VipReceiver
  import opened VipTransfer
  import opened VipProtocol

  // ----- Opening the tables

  /** How many of the first `k` chained tables are there, up to the first one missing. */
  function ChainedPrefix(files: map<TableFile, bytes>, k: nat): (r: nat)
    ensures r <= k
    ensures forall j :: 0 <= j < r ==> Chained(j) in files
    ensures r < k ==> Chained(r) !in files
  {
    if k == 0 then 0
    else
      var r := ChainedPrefix(files, k - 1);
      if r == k - 1 && Chained(k - 1) in files then k else r
  }

  function OpenTables(files: map<TableFile, bytes>, signed: bytes): Tables {
    Tables(signed, seq(ChainedPrefix(files, MAX_CHAINED_FILES),
                       i requires 0 <= i < ChainedPrefix(files, MAX_CHAINED_FILES) => files[Chained(i)]))
  }

  /** `vip_transfer_init`: open at most 32 chained tables, stopping at the first one missing. */
  method TransferInit(files: map<TableFile, bytes>, signed: bytes) returns (tables: Tables, t: Transfer)
    ensures tables == OpenTables(files, signed) && t.state == VipInit && t.chainedCur == 0
  {
    var chained: seq<bytes> := [];
    var i := 0;
    while i < MAX_CHAINED_FILES
      invariant 0 <= i <= MAX_CHAINED_FILES && |chained| == i
      invariant forall j :: 0 <= j < i ==> Chained(j) in files && chained[j] == files[Chained(j)]
    {
      if Chained(i) !in files {
        break;
      }
      chained := chained + [files[Chained(i)]];
      i := i + 1;
    }
    assert i == ChainedPrefix(files, MAX_CHAINED_FILES);
    tables := Tables(signed, chained);
    t := START;
  }

  /** Opening a generated directory, with whatever older tables are left in it. */
  lemma OpensGenerated(files: map<TableFile, bytes>, signed: bytes, full: bytes, n: nat)
    requires HoldsTables(files, full, n)
    requires SignedPayload(signed) == Some(files[ToSign])
    ensures GeneratedFor(OpenTables(files, signed), full, n, n)
    ensures |OpenTables(files, signed).chained| <= MAX_CHAINED_FILES
    ensures ChainedCount(n) <= MAX_CHAINED_FILES ==> ChainedCount(n) <= |OpenTables(files, signed).chained|
    ensures ChainedCount(n) > MAX_CHAINED_FILES ==> |OpenTables(files, signed).chained| == MAX_CHAINED_FILES
  {
    hide ChainedTable, TableToSign, SignedPayload, ChainedCount;
  }

  lemma FitsExactly(n: nat, chained: nat)
    requires chained <= MAX_CHAINED_FILES
    requires ChainedCount(n) <= MAX_CHAINED_FILES ==> ChainedCount(n) <= chained
    requires ChainedCount(n) > MAX_CHAINED_FILES ==> chained == MAX_CHAINED_FILES
    ensures n <= Capacity(chained) <==> n <= MAX_HASHES
  {
  }

  // ----- Reading a report

  lemma {:induction false} ReportErrors(full: bytes, n: nat, frames: seq<bytes>, k: nat, i: nat)
    requires IsDigestTable(full, n) && k <= |frames| <= n && i < k
    ensures ChunkOk(i) in LogOf(full, n, frames, k) <==> Sha256(frames[i]) == DigestAt(full, i)
    ensures ChunkMismatch(i) in LogOf(full, n, frames, k) <==> Sha256(frames[i]) != DigestAt(full, i)
  {
    hide Sha256, Arrival;
    ArrivalHasNoVerdict(n, k - 1, i);
    if i < k - 1 {
      ReportErrors(full, n, frames, k - 1, i);
    } else {
      LaterVerdictsAbsent(full, n, frames, k - 1, i);
    }
  }

  lemma {:induction false} LaterVerdictsAbsent(full: bytes, n: nat, frames: seq<bytes>, k: nat, i: nat)
    requires IsDigestTable(full, n) && k <= |frames| <= n && k <= i
    ensures ChunkOk(i) !in LogOf(full, n, frames, k) && ChunkMismatch(i) !in LogOf(full, n, frames, k)
  {
    hide Sha256, Arrival;
    if k > 0 {
      ArrivalHasNoVerdict(n, k - 1, i);
      LaterVerdictsAbsent(full, n, frames, k - 1, i);
    }
  }

  lemma ArrivalHasNoVerdict(n: nat, k: nat, i: nat)
    requires k < n
    ensures ChunkOk(i) !in Arrival(n, k) && ChunkMismatch(i) !in Arrival(n, k)
    ensures forall r :: r in Arrival(n, k) ==> !IsError(r)
  {
  }

  /** Mismatches are the only errors a run under generated tables can report. */
  lemma {:induction false} OnlyMismatches(full: bytes, n: nat, frames: seq<bytes>, k: nat, r: Report)
    requires IsDigestTable(full, n) && k <= |frames| <= n
    requires r in LogOf(full, n, frames, k) && IsError(r)
    ensures r.ChunkMismatch? && r.idx < k
  {
    hide Sha256, Arrival;
    ArrivalHasNoVerdict(n, k - 1, 0);
    if r in LogOf(full, n, frames, k - 1) {
      OnlyMismatches(full, n, frames, k - 1, r);
    }
  }

  /** A table arrives right before frame `i` exactly when `i` is the first frame it covers. */
  lemma ArrivesJustInTime(n: nat, i: nat)
    requires i < n
    ensures Arrival(n, i) != [] <==> i == 0 || exists c :: 0 <= c < ChainedCount(n) && TableStart(c) == i
    ensures Arrival(n, i) != [] ==>
              var loaded := Arrival(n, i)[|Arrival(n, i)| - 1];
              loaded.TableLoaded? && loaded.total - loaded.count == i && 0 < loaded.count
  {
    var c := ChainedCount(i);
    TableBounds(n, c);
    TableBounds(i, c);
    TableBounds(i + 1, c);
    if i > 0 && c < ChainedCount(i + 1) {
      assert TableStart(c) == i;
    }
    forall d | 0 <= d < ChainedCount(n) && TableStart(d) == i
      ensures i == 0 || c < ChainedCount(i + 1)
    {
      TableBounds(i, d);
      TableBounds(i + 1, d);
    }
  }

  // ----- The theorems

  /**
   * Agreement and capacity: after generating tables for `frames` and signing, sending the
   * same frames never lacks a table exactly when there are at most 53 + 32 * 255 of them;
   * then every table passes its chain check and every frame matches its own digest.
   */
  lemma EndToEnd(files: map<TableFile, bytes>, signed: bytes, frames: seq<bytes>)
    requires 0 < |frames|
    requires HoldsTables(files, DigestsOf(frames), |frames|)
    requires SignedPayload(signed) == Some(files[ToSign])
    ensures var run := Run(OpenTables(files, signed), frames);
            && (run.ok <==> |frames| <= MAX_HASHES)
            && (run.ok ==>
                  && run.r.idx == |frames|
                  && run.r.log == LogOf(DigestsOf(frames), |frames|, frames, |frames|)
                  && (forall i :: 0 <= i < |frames| ==> ChunkOk(i) in run.r.log)
                  && (forall r :: r in run.r.log ==> !IsError(r)))
  {
    hide Sha256, SignedPayload, ChainedTable, TableToSign, Run, HoldsTables, GeneratedFor, LogOf, OpenTables, DigestsOf;
    var tables, full, n := OpenTables(files, signed), DigestsOf(frames), |frames|;
    OpensGenerated(files, signed, full, n);
    RunFits(tables, frames);
    FitsExactly(n, |tables.chained|);
    if Run(tables, frames).ok {
      Detects(tables, frames, frames);
      ReportIsClean(frames);
    }
  }

  lemma ReportIsClean(frames: seq<bytes>)
    ensures forall r :: r in LogOf(DigestsOf(frames), |frames|, frames, |frames|) ==> !IsError(r)
  {
    hide Sha256, LogOf, DigestsOf;
    forall r | r in LogOf(DigestsOf(frames), |frames|, frames, |frames|) ensures !IsError(r) {
      if IsError(r) {
        OnlyMismatches(DigestsOf(frames), |frames|, frames, |frames|, r);
        ReportErrors(DigestsOf(frames), |frames|, frames, |frames|, r.idx);
        DigestOfFrame(frames, r.idx);
      }
    }
  }

  /**
   * Detection: under tables made for `frames`, a run of other frames reports a mismatch for
   * frame `i` exactly when its hash is not that of the frame the table was made for.
   */
  lemma Detects(tables: Tables, frames: seq<bytes>, sent: seq<bytes>)
    requires 0 < |sent| <= |frames| && |sent| <= Capacity(|tables.chained|)
    requires GeneratedFor(tables, DigestsOf(frames), |frames|, |sent|)
    ensures var run := Run(tables, sent);
            && run.ok && run.r.idx == |sent|
            && run.r.log == LogOf(DigestsOf(frames), |frames|, sent, |sent|)
            && (forall i :: 0 <= i < |sent| ==>
                  && (ChunkOk(i) in run.r.log <==> Sha256(sent[i]) == Sha256(frames[i]))
                  && (ChunkMismatch(i) in run.r.log <==> Sha256(sent[i]) != Sha256(frames[i])))
            && (forall r :: r in run.r.log && IsError(r) ==> r.ChunkMismatch?)
  {
    hide Sha256, SignedPayload, ChainedTable, TableToSign, GeneratedFor;
    var full, n, k := DigestsOf(frames), |frames|, |sent|;
    RunMatches(tables, full, n, sent, k);
    assert sent[..k] == sent;
    forall i | 0 <= i < k
      ensures ChunkOk(i) in Run(tables, sent).r.log <==> Sha256(sent[i]) == Sha256(frames[i])
      ensures ChunkMismatch(i) in Run(tables, sent).r.log <==> Sha256(sent[i]) != Sha256(frames[i])
    {
      ReportErrors(full, n, sent, k, i);
      DigestOfFrame(frames, i);
    }
    forall r | r in Run(tables, sent).r.log && IsError(r) ensures r.ChunkMismatch? {
      OnlyMismatches(full, n, sent, k, r);
    }
  }

  /** No two of these strings collide. */
  ghost predicate NoCollision(a: bytes, b: bytes) {
    Sha256(a) == Sha256(b) ==> a == b
  }

  /** Without a collision in the pair, the frames flagged are exactly the frames that differ. */
  lemma DetectsDifference(tables: Tables, frames: seq<bytes>, sent: seq<bytes>, i: nat)
    requires 0 < |sent| <= |frames| && |sent| <= Capacity(|tables.chained|) && i < |sent|
    requires GeneratedFor(tables, DigestsOf(frames), |frames|, |sent|)
    requires NoCollision(sent[i], frames[i])
    ensures ChunkMismatch(i) in Run(tables, sent).r.log <==> sent[i] != frames[i]
  {
    hide Sha256, GeneratedFor, Run;
    Detects(tables, frames, sent);
  }

  /**
   * Authenticity: with the generated signed table, chained tables that pass every check are
   * the generated ones, byte for byte, as far as the run got.
   */
  lemma {:induction false} ChainIsAuthentic(tables: Tables, full: bytes, n: nat, sent: seq<bytes>, k: nat)
    requires IsDigestTable(full, n) && k <= |sent| <= n && k <= Capacity(|tables.chained|)
    requires |tables.chained| <= MAX_CHAINED_FILES
    requires SignedPayload(tables.signed) == Some(TableToSign(full, n))
    requires forall i :: 0 <= i < |tables.chained| && i < ChainedCount(n) ==>
               NoCollision(tables.chained[i], ChainedTable(full, n, i))
    requires ChainMismatch !in Run(tables, sent[..k]).r.log
    ensures GeneratedFor(tables, full, n, k)
  {
    hide Sha256, SignedPayload, ChainedTable, TableToSign, TransferAt, AfterFrame, TableDue, Capacity;
    hide ChainedCount, CheckChunk, Receive, SendFrame, Run, ReceiverAt;
    if k > 0 {
      assert sent[..k][..k - 1] == sent[..k - 1];
      LogGrows(tables, sent[..k]);
      ChainIsAuthentic(tables, full, n, sent, k - 1);
      RunMatches(tables, full, n, sent, k - 1);
      ScheduleStep(k - 1, |tables.chained|);
      CountMonotone(k, n);
      var c := ChainedCount(k - 1);
      if c < ChainedCount(k) && k - 1 > 0 {
        LinkReported(tables, full, n, sent, k - 1);
      }
      NoTablesForNothing();
    } else {
      NoTablesForNothing();
    }
  }

  lemma NoTablesForNothing()
    ensures ChainedCount(0) == ChainedCount(1) == 0
  {
  }

  lemma LogGrows(tables: Tables, frames: seq<bytes>)
    requires 0 < |frames|
    ensures forall r :: r in Run(tables, frames[..|frames| - 1]).r.log ==> r in Run(tables, frames).r.log
  {
    hide SignedPayload, Sha256, TableDue, AfterFrame, Entries;
  }

  /** The chain check before frame `k` compares the table that arrives with the generated one. */
  lemma LinkReported(tables: Tables, full: bytes, n: nat, sent: seq<bytes>, k: nat)
    requires IsDigestTable(full, n) && 0 < k < |sent| <= n && k < Capacity(|tables.chained|)
    requires Run(tables, sent[..k]) == Session(TransferAt(k), ReceiverAt(full, n, sent, k), true)
    requires ChainedCount(k) < ChainedCount(k + 1) <= |tables.chained|
    ensures ChainedCount(k) < ChainedCount(n)
    ensures Sha256(tables.chained[ChainedCount(k)]) != Sha256(ChainedTable(full, n, ChainedCount(k))) ==>
              ChainMismatch in Run(tables, sent[..k + 1]).r.log
  {
    hide SignedPayload, Sha256, AfterFrame, TableDue, TransferAt, Entries, ChainedTable, Capacity;
    hide Run, ReceiverAt, RecvTable, CheckChunk, SendFrame;
    CountMonotone(k + 1, n);
    assert sent[..k + 1][..k] == sent[..k];
    ScheduleStep(k, |tables.chained|);
    var c, r := ChainedCount(k), ReceiverAt(full, n, sent, k);
    assert r.link == Some(Sha256(ChainedTable(full, n, c))) by { ReceiverAwaits(full, n, sent, k); }
    RunStep(tables, sent, k);
    if Sha256(tables.chained[c]) != Sha256(ChainedTable(full, n, c)) {
      assert |r.hashes| <= MAX_HASHES;
      CheckedLinkStays(r, tables.chained[c], sent[k]);
      assert Run(tables, sent[..k + 1])
          == SendFrame(Session(TransferAt(k), r, true), tables, sent[k]);
      SendsChained(TransferAt(k), r, tables, c, sent[k]);
    }
  }

  lemma SendsChained(t: Transfer, r: Receiver, tables: Tables, c: nat, frame: bytes)
    requires |r.hashes| <= MAX_HASHES && c < |tables.chained|
    requires TableDue(t, |tables.chained|) == ChainedTableNo(c)
    ensures SendFrame(Session(t, r, true), tables, frame).r == CheckChunk(RecvTable(r, tables.chained[c], false), frame)
  {
    hide RecvTable, CheckChunk, AfterFrame;
  }

  lemma ReceiverAwaits(full: bytes, n: nat, sent: seq<bytes>, k: nat)
    requires IsDigestTable(full, n) && 0 < k <= |sent| <= n && ChainedCount(k) < ChainedCount(n)
    ensures ReceiverAt(full, n, sent, k).link == Some(Sha256(ChainedTable(full, n, ChainedCount(k))))
  {
    hide ChainedTable, ChainedCount;
  }

  lemma RunStep(tables: Tables, sent: seq<bytes>, k: nat)
    requires k < |sent|
    ensures Run(tables, sent[..k + 1]) == SendFrame(Run(tables, sent[..k]), tables, sent[k])
  {
    hide SendFrame;
    assert sent[..k + 1][..k] == sent[..k];
  }

  lemma CheckedLinkStays(r: Receiver, table: bytes, frame: bytes)
    requires |r.hashes| <= MAX_HASHES && r.link.Some? && Sha256(table) != r.link.value
    ensures ChainMismatch in CheckChunk(RecvTable(r, table, false), frame).log
  {
    hide Sha256, Entries;
    assert ChainMismatch in CheckLink(r, table).log;
  }
}

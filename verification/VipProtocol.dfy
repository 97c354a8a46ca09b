/**
 * Generator, transfer schedule and receiver agree: for every run, the table that covers a
 * frame arrives just before the first frame it covers, passes its chain check, and frame
 * `i` is compared with exactly digest `i`.
 */
module VipProtocol {
  import opened Bytes
  import opened Options
  import opened Sha256Spec
  import opened VipTables
  import opened VipReceiver
  import opened VipTransfer

  /** The full digest table of a list of frames. */
  function DigestsOf(frames: seq<bytes>): (full: bytes)
    ensures |full| == 32 * |frames|
  {
    if |frames| == 0 then [] else DigestsOf(frames[..|frames| - 1]) + Sha256(frames[|frames| - 1])
  }

  lemma {:induction false} DigestOfFrame(frames: seq<bytes>, i: nat)
    requires i < |frames|
    ensures DigestAt(DigestsOf(frames), i) == Sha256(frames[i])
  {
    hide Sha256;
    var n := |frames| - 1;
    if i < n {
      DigestOfFrame(frames[..n], i);
      assert DigestsOf(frames)[32 * i..32 * (i + 1)] == DigestsOf(frames[..n])[32 * i..32 * (i + 1)];
    }
  }

  // ----- The expected report

  /** What the receiver reports about frame `i`. */
  function Verdict(full: bytes, frames: seq<bytes>, i: nat): Report
    requires i < |frames| && 32 * |frames| <= |full|
  {
    if Sha256(frames[i]) == DigestAt(full, i) then ChunkOk(i) else ChunkMismatch(i)
  }

  /** What the receiver reports about tables just before frame `i`. */
  function Arrival(n: nat, i: nat): seq<Report>
    requires i < n
  {
    var c := ChainedCount(i);
    if i == 0 then [TableLoaded(true, Min(n, 53), Min(n, 53))]
    else if c < ChainedCount(i + 1) then
      TableBounds(n, c); TableBounds(i + 1, c);
      [ChainOk, TableLoaded(false, TableEnd(n, c) - TableStart(c), TableEnd(n, c))]
    else []
  }

  /** The whole report on the first `k` frames. */
  function LogOf(full: bytes, n: nat, frames: seq<bytes>, k: nat): seq<Report>
    requires IsDigestTable(full, n) && k <= |frames| <= n
  {
    if k == 0 then [] else LogOf(full, n, frames, k - 1) + Arrival(n, k - 1) + [Verdict(full, frames, k - 1)]
  }

  /** The receiver after `k` frames. */
  function ReceiverAt(full: bytes, n: nat, frames: seq<bytes>, k: nat): Receiver
    requires IsDigestTable(full, n) && k <= |frames| <= n
  {
    if k == 0 then EMPTY
    else
      var c := ChainedCount(k);
      CountMonotone(k, n);
      PayloadsArePrefix(full, n, c);
      Receiver(Entries(full, Loaded(n, c)), k,
               LinkAfter(full, n, c), LogOf(full, n, frames, k))
  }

  lemma CountMonotone(k: nat, n: nat)
    requires k <= n
    ensures ChainedCount(k) <= ChainedCount(n)
  {
  }

  // ----- The arrival of each kind of table

  lemma SignedArrives(full: bytes, n: nat, signed: bytes)
    requires IsDigestTable(full, n) && 0 < n
    requires SignedPayload(signed) == Some(TableToSign(full, n))
    ensures RecvTable(EMPTY, signed, true)
         == Receiver(Entries(full, Min(n, 53)), 0,
                     if 0 < ChainedCount(n) then Some(Sha256(ChainedTable(full, n, 0))) else None,
                     [TableLoaded(true, Min(n, 53), Min(n, 53))])
  {
    hide Sha256, ChainedTable, SignedPayload;
    var p := TableToSign(full, n);
    TableBounds(n, 0);
    if ChainedCount(n) > 0 {
      assert n > 53;
      assert |p| / 32 == 54;
      assert p[32 * 53..32 * 54] == Sha256(ChainedTable(full, n, 0));
      assert p[..32 * 53] == full[..32 * 53];
      EntriesOfSlice(full, 0, 53, p);
    } else {
      assert p == full;
    }
  }

  lemma EntriesOfSlice(full: bytes, start: nat, count: nat, t: bytes)
    requires 32 * (start + count) <= |full| && 32 * count <= |t|
    requires t[..32 * count] == full[32 * start..32 * (start + count)]
    ensures forall i :: 0 <= i < count ==> Entries(t, count)[i] == Entries(full, start + count)[start + i]
  {
    forall i | 0 <= i < count
      ensures Entries(t, count)[i] == Entries(full, start + count)[start + i]
    {
      SliceOfSlice(t, 0, 32 * count, 32 * i, 32 * (i + 1));
      SliceOfSlice(full, 32 * start, 32 * (start + count), 32 * i, 32 * (i + 1));
      assert 32 * start + 32 * i == 32 * (start + i);
    }
  }

  lemma ChainedArrives(full: bytes, n: nat, c: nat, r: Receiver)
    requires IsDigestTable(full, n) && c < ChainedCount(n) && c < MAX_CHAINED_FILES
    requires Loaded(n, c) <= n && r.hashes == Entries(full, Loaded(n, c))
    requires r.link == Some(Sha256(ChainedTable(full, n, c)))
    ensures |r.hashes| <= MAX_HASHES && Loaded(n, c + 1) <= n
    ensures RecvTable(r, ChainedTable(full, n, c), false)
         == Receiver(Entries(full, Loaded(n, c + 1)), r.idx,
                     if c + 1 < ChainedCount(n) then Some(Sha256(ChainedTable(full, n, c + 1))) else None,
                     r.log + [ChainOk, TableLoaded(false, TableEnd(n, c) - TableStart(c), TableEnd(n, c))])
  {
    hide Sha256, ChainedTable;
    TableBounds(n, c);
    if c > 0 { TableBounds(n, c - 1); }
    ChainedTableShape(full, n, c);
    var t := ChainedTable(full, n, c);
    var count := TableEnd(n, c) - TableStart(c);
    assert Loaded(n, c) == TableStart(c);
    assert Loaded(n, c + 1) == TableEnd(n, c) <= MAX_HASHES;
    EntriesOfSlice(full, TableStart(c), count, t);
    assert Entries(full, Loaded(n, c)) + Entries(t, count) == Entries(full, Loaded(n, c + 1));
    assert CheckLink(r, t) == r.(log := r.log + [ChainOk], link := None);
    assert r.log + [ChainOk] + [TableLoaded(false, count, TableEnd(n, c))]
        == r.log + [ChainOk, TableLoaded(false, count, TableEnd(n, c))];
  }

  lemma ChainedTableShape(full: bytes, n: nat, c: nat)
    requires IsDigestTable(full, n) && c < ChainedCount(n)
    ensures var t, count := ChainedTable(full, n, c), TableEnd(n, c) - TableStart(c);
            && |t| >= 32 * count && t[..32 * count] == ChainedPayload(full, n, c)
            && (c + 1 < ChainedCount(n) ==> |t| == 32 * 256 && count == 255
                                            && t[32 * 255..32 * 256] == Sha256(ChainedTable(full, n, c + 1)))
            && (c + 1 == ChainedCount(n) ==> |t| == 32 * count + 1)
  {
    hide Sha256;
    TableBounds(n, c);
  }

  // ----- The run

  /** Tables that are the generated ones as far as the first `k` frames need them. */
  ghost predicate GeneratedFor(tables: Tables, full: bytes, n: nat, k: nat)
    requires IsDigestTable(full, n)
  {
    && |tables.chained| <= MAX_CHAINED_FILES
    && SignedPayload(tables.signed) == Some(TableToSign(full, n))
    && forall i :: 0 <= i < |tables.chained| && i < ChainedCount(k) && i < ChainedCount(n) ==>
         tables.chained[i] == ChainedTable(full, n, i)
  }

  /** The link awaited once `c` chained tables have arrived. */
  function LinkAfter(full: bytes, n: nat, c: nat): Option<bytes>
    requires IsDigestTable(full, n)
  {
    if c < ChainedCount(n) then Some(Sha256(ChainedTable(full, n, c))) else None
  }

  /** The receiver once the table due before frame `k` has arrived. */
  function ReceivedFor(full: bytes, n: nat, frames: seq<bytes>, k: nat): Receiver
    requires IsDigestTable(full, n) && k < |frames| <= n
  {
    CoversFrame(n, k);
    Receiver(Entries(full, Loaded(n, ChainedCount(k + 1))), k, LinkAfter(full, n, ChainedCount(k + 1)),
             LogOf(full, n, frames, k) + Arrival(n, k))
  }

  /** Frame `k`'s digest has arrived by the time frame `k` goes out. */
  lemma CoversFrame(n: nat, k: nat)
    requires k < n
    ensures k < Loaded(n, ChainedCount(k + 1)) <= n
  {
  }

  lemma FirstTable(tables: Tables, full: bytes, n: nat, frames: seq<bytes>)
    requires IsDigestTable(full, n) && 0 < |frames| <= n && GeneratedFor(tables, full, n, 1)
    ensures RecvTable(EMPTY, tables.signed, true) == ReceivedFor(full, n, frames, 0)
  {
    hide Sha256, SignedPayload, ChainedTable, TableToSign, RecvTable;
    SignedArrives(full, n, tables.signed);
  }

  lemma NextTable(tables: Tables, full: bytes, n: nat, frames: seq<bytes>, k: nat)
    requires IsDigestTable(full, n) && 0 < k < |frames| <= n && GeneratedFor(tables, full, n, k + 1)
    requires ChainedCount(k + 1) == ChainedCount(k) + 1 <= |tables.chained|
    ensures |ReceiverAt(full, n, frames, k).hashes| <= MAX_HASHES
    ensures RecvTable(ReceiverAt(full, n, frames, k), tables.chained[ChainedCount(k)], false)
         == ReceivedFor(full, n, frames, k)
  {
    hide Sha256, SignedPayload, ChainedTable, TableToSign, RecvTable, LogOf;
    var c := ChainedCount(k);
    CountMonotone(k + 1, n);
    PayloadsArePrefix(full, n, c);
    ChainedArrives(full, n, c, ReceiverAt(full, n, frames, k));
  }

  lemma SameTable(full: bytes, n: nat, frames: seq<bytes>, k: nat)
    requires IsDigestTable(full, n) && 0 < k < |frames| <= n
    requires ChainedCount(k + 1) == ChainedCount(k)
    ensures ReceiverAt(full, n, frames, k) == ReceivedFor(full, n, frames, k)
  {
    hide Sha256, ChainedTable, LogOf;
    assert LogOf(full, n, frames, k) + [] == LogOf(full, n, frames, k);
  }

  lemma FrameChecked(full: bytes, n: nat, frames: seq<bytes>, k: nat)
    requires IsDigestTable(full, n) && k < |frames| <= n
    ensures CheckChunk(ReceivedFor(full, n, frames, k), frames[k]) == ReceiverAt(full, n, frames, k + 1)
  {
    hide Sha256, ChainedTable, ChainedCount;
    CoversFrame(n, k);
    PayloadsArePrefix(full, n, ChainedCount(k + 1)) by { CountMonotone(k + 1, n); }
  }

  lemma SessionStep(tables: Tables, full: bytes, n: nat, frames: seq<bytes>, k: nat)
    requires IsDigestTable(full, n) && k < |frames| <= n && k < Capacity(|tables.chained|)
    requires GeneratedFor(tables, full, n, k + 1)
    requires |ReceiverAt(full, n, frames, k).hashes| <= MAX_HASHES
    ensures SendFrame(Session(TransferAt(k), ReceiverAt(full, n, frames, k), true), tables, frames[k])
         == Session(TransferAt(k + 1), ReceiverAt(full, n, frames, k + 1), true)
  {
    hide Sha256, SignedPayload, ChainedTable, TableToSign, RecvTable, CheckChunk, TransferAt, AfterFrame, TableDue;
    hide ReceivedFor, ChainedCount, Capacity;
    ScheduleStep(k, |tables.chained|);
    if k == 0 {
      FirstTable(tables, full, n, frames);
    } else if ChainedCount(k) < ChainedCount(k + 1) {
      NextTable(tables, full, n, frames, k);
    } else {
      SameTable(full, n, frames, k);
    }
    FrameChecked(full, n, frames, k);
  }

  /**
   * With generated tables, a run reports each table just before the first frame it covers,
   * every chain check passes, and frame `i` is checked against digest `i`.
   */
  lemma {:induction false} RunMatches(tables: Tables, full: bytes, n: nat, frames: seq<bytes>, k: nat)
    requires IsDigestTable(full, n) && k <= |frames| <= n && k <= Capacity(|tables.chained|)
    requires GeneratedFor(tables, full, n, k)
    ensures Run(tables, frames[..k]) == Session(TransferAt(k), ReceiverAt(full, n, frames, k), true)
  {
    hide Sha256, SignedPayload, ChainedTable, TableToSign, SendFrame, TransferAt, ReceiverAt, ChainedCount;
    if k == 0 {
      TransferAtStart();
      assert ReceiverAt(full, n, frames, 0) == EMPTY by { ReceiverStart(full, n, frames); }
    } else {
      CountMonotone(k - 1, k);
      RunMatches(tables, full, n, frames, k - 1);
      assert frames[..k][..k - 1] == frames[..k - 1];
      SessionStep(tables, full, n, frames, k - 1);
    }
  }

  lemma ReceiverStart(full: bytes, n: nat, frames: seq<bytes>)
    requires IsDigestTable(full, n) && |frames| <= n
    ensures ReceiverAt(full, n, frames, 0) == EMPTY
  {
  }
}

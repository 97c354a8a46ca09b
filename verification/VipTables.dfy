/**
 * The VIP digest tables as a function of the full digest table: 53 digests in the table
 * that gets signed, 255 in each chained table, and every table but the last ending in the
 * hash of the next one.
 */
module VipTables {
  import opened Bytes
  import opened Sha256Spec

  const DIGESTS_PER_SIGNED_FILE := 54
  const DIGESTS_PER_CHAINED_FILE := 256
  const MAX_CHAINED_FILES := 32

  /** A full digest table for `n` frames. */
  predicate IsDigestTable(full: bytes, n: nat) { |full| == 32 * n }

  /** The digest of frame `i`. */
  function DigestAt(full: bytes, i: nat): bytes
    requires 32 * (i + 1) <= |full|
  {
    full[32 * i..32 * (i + 1)]
  }

  /** How many chained tables `n` digests need. */
  function ChainedCount(n: nat): nat {
    if n <= 53 then 0 else (n - 53 + 254) / 255
  }

  /** The first digest in chained table `i`. */
  function TableStart(i: nat): nat { 53 + 255 * i }

  /** One past the last digest in chained table `i` of `n` digests. */
  function TableEnd(n: nat, i: nat): nat { Min(n, 53 + 255 * (i + 1)) }

  lemma TableBounds(n: nat, i: nat)
    ensures i < ChainedCount(n) <==> TableStart(i) < n
    ensures i + 1 == ChainedCount(n) ==> TableEnd(n, i) == n
    ensures i + 1 < ChainedCount(n) ==> TableEnd(n, i) == TableStart(i + 1) == TableStart(i) + 255
    ensures i < ChainedCount(n) ==> TableStart(i) < TableEnd(n, i) <= TableStart(i) + 255
  {
  }

  /** The digests of chained table `i`. */
  function ChainedPayload(full: bytes, n: nat, i: nat): (r: bytes)
    requires IsDigestTable(full, n) && i < ChainedCount(n)
    ensures |r| == 32 * (TableEnd(n, i) - TableStart(i))
  {
    TableBounds(n, i);
    full[32 * TableStart(i)..32 * TableEnd(n, i)]
  }

  /** Chained table `i`: its digests, then the next table's hash or a final zero. */
  function ChainedTable(full: bytes, n: nat, i: nat): bytes
    requires IsDigestTable(full, n) && i < ChainedCount(n)
    decreases ChainedCount(n) - i
  {
    ChainedPayload(full, n, i)
    + (if i + 1 == ChainedCount(n) then [0] else Sha256(ChainedTable(full, n, i + 1)))
  }

  function SignedPayloadDigests(full: bytes, n: nat): (r: bytes)
    requires IsDigestTable(full, n)
    ensures |r| == 32 * Min(n, 53)
  {
    full[..32 * Min(n, 53)]
  }

  /** The table to be signed: the first 53 digests and the hash of the first chained table. */
  function TableToSign(full: bytes, n: nat): bytes
    requires IsDigestTable(full, n)
  {
    SignedPayloadDigests(full, n)
    + (if ChainedCount(n) == 0 then [] else Sha256(ChainedTable(full, n, 0)))
  }

  /** The digests of the first `k` chained tables, after those of the signed one. */
  function PayloadsUpTo(full: bytes, n: nat, k: nat): bytes
    requires IsDigestTable(full, n) && k <= ChainedCount(n)
  {
    if k == 0 then SignedPayloadDigests(full, n)
    else PayloadsUpTo(full, n, k - 1) + ChainedPayload(full, n, k - 1)
  }

  /** How many digests have been handed over with the signed and the first `k` chained tables. */
  function Loaded(n: nat, k: nat): nat {
    if k == 0 then Min(n, 53) else TableEnd(n, k - 1)
  }

  /** The tables partition the digests: nothing is lost, repeated or reordered. */
  lemma {:induction false} PayloadsArePrefix(full: bytes, n: nat, k: nat)
    requires IsDigestTable(full, n) && k <= ChainedCount(n)
    ensures Loaded(n, k) <= n
    ensures PayloadsUpTo(full, n, k) == full[..32 * Loaded(n, k)]
    ensures k == ChainedCount(n) ==> PayloadsUpTo(full, n, k) == full
  {
    if k > 0 {
      PayloadsArePrefix(full, n, k - 1);
      TableBounds(n, k - 1);
      if k > 1 { TableBounds(n, k - 2); }
      assert full[..32 * Loaded(n, k)] == full[..32 * Loaded(n, k - 1)] + ChainedPayload(full, n, k - 1);
      if k == ChainedCount(n) { assert full[..32 * n] == full; }
    } else if ChainedCount(n) == 0 {
      assert full[..32 * n] == full;
    }
  }

  /** Lengths tell a final table from the others: only the final one is not a multiple of 32. */
  lemma ChainedTableLength(full: bytes, n: nat, i: nat)
    requires IsDigestTable(full, n) && i < ChainedCount(n)
    ensures i + 1 < ChainedCount(n) ==> |ChainedTable(full, n, i)| == 32 * DIGESTS_PER_CHAINED_FILE
    ensures i + 1 == ChainedCount(n) ==> |ChainedTable(full, n, i)| == 32 * (n - TableStart(i)) + 1
  {
    hide Sha256;
    TableBounds(n, i);
  }

  /** Chained table `i` as first written: no link yet, but the last one has its zero. */
  function UnlinkedTable(full: bytes, n: nat, i: nat): bytes
    requires IsDigestTable(full, n) && i < ChainedCount(n)
  {
    ChainedPayload(full, n, i) + (if i + 1 == ChainedCount(n) then [0] else [])
  }

  lemma LinkCompletes(full: bytes, n: nat, i: nat)
    requires IsDigestTable(full, n) && i < ChainedCount(n)
    ensures i + 1 == ChainedCount(n) ==> ChainedTable(full, n, i) == UnlinkedTable(full, n, i)
    ensures i + 1 < ChainedCount(n) ==>
              ChainedTable(full, n, i) == UnlinkedTable(full, n, i) + Sha256(ChainedTable(full, n, i + 1))
  {
    hide Sha256, ChainedPayload;
    if i + 1 < ChainedCount(n) {
      assert UnlinkedTable(full, n, i) == ChainedPayload(full, n, i);
    }
  }
}

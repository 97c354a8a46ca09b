/** The simulator's VIP memory: a fixed array of digests, filled by tables and used up by frames. */
module VipChecker {
  import opened Bytes
  import opened Options
  import opened Sha256Spec
  import opened Sha2
  import opened VipTables
  import opened VipReceiver

  /** SHA256Init, SHA256Update, SHA256Final on one buffer. */
  method HashOf(buf: bytes) returns (hash: bytes)
    ensures hash == Sha256(buf)
  {
    hide Sha256, Context.Valid;
    var ctx := new Context();
    ctx.Init();
    ctx.Update(buf);
    assert [] + buf == buf;
    hash := ctx.Final();
  }

  class Checker {
    const hashes: array<bytes>
    var count: nat
    var idx: nat
    var chainHash: bytes
    var hasChainHash: bool
    var log: seq<Report>

    ghost predicate Valid()
      reads this
    {
      hashes.Length == MAX_HASHES && count <= MAX_HASHES
    }

    /** The state of the receiver this memory stands for. */
    ghost function View(): (r: Receiver)
      requires Valid()
      reads this, hashes
      ensures |r.hashes| <= MAX_HASHES
    {
      Receiver(hashes[..count], idx, if hasChainHash then Some(chainHash) else None, log)
    }

    constructor ()
      ensures Valid() && View() == EMPTY && fresh(hashes)
    {
      hashes := new bytes[MAX_HASHES](i => []);
      count, idx, chainHash, hasChainHash, log := 0, 0, [], false, [];
    }

    /** Copy `n` digests in behind those already there. */
    method CopyHashes(table: bytes, n: nat)
      requires Valid() && count + n <= MAX_HASHES && 32 * n <= |table|
      modifies this`count, hashes
      ensures Valid() && count == old(count) + n
      ensures hashes[..count] == old(hashes[..count]) + Entries(table, n)
    {
      ghost var before := hashes[..count];
      var i := 0;
      while i < n
        invariant count == old(count)
        invariant 0 <= i <= n && hashes[..count] == before
        invariant forall j :: 0 <= j < i ==> hashes[count + j] == table[32 * j..32 * (j + 1)]
      {
        hashes[count + i] := table[32 * i..32 * (i + 1)];
        i := i + 1;
      }
      count := count + n;
      assert hashes[..count] == before + Entries(table, n);
    }

    /** Take over the digests of a table, as many as fit. */
    method StoreHashes(table: bytes, dataCount: nat, signed: bool)
      requires Valid() && 32 * dataCount <= |table|
      modifies this`count, this`log, hashes
      ensures Valid() && View() == Store(old(View()), Entries(table, dataCount), signed)
    {
      var n := dataCount;
      if count + n > MAX_HASHES {
        log := log + [TableOverflow];
        n := MAX_HASHES - count;
      }
      assert Entries(table, n) == Entries(table, dataCount)[..n];
      CopyHashes(table, n);
      log := log + [TableLoaded(signed, n, count)];
    }

    /** `sim_vip_recv_table` */
    method RecvTable(buf: bytes, signed: bool)
      requires Valid()
      modifies this, hashes
      ensures Valid() && View() == VipReceiver.RecvTable(old(View()), buf, signed)
    {
      hide SignedPayload, Entries, Store, Sha256;
      if signed {
        var payload := SignedPayload(buf);
        if payload.None? {
          log := log + [TableUnrecognised];
          return;
        }
        var n := |payload.value| / 32;
        var linked := n == DIGESTS_PER_SIGNED_FILE;
        if linked {
          chainHash := payload.value[32 * (n - 1)..32 * n];
          hasChainHash := true;
        }
        StoreHashes(payload.value, if linked then n - 1 else n, true);
      } else {
        if hasChainHash {
          var hash := HashOf(buf);
          log := log + [if hash == chainHash then ChainOk else ChainMismatch];
          hasChainHash := false;
        }
        var n := |buf| / 32;
        var linked := |buf| % 32 == 0 && n == DIGESTS_PER_CHAINED_FILE;
        if linked {
          chainHash := buf[32 * (n - 1)..32 * n];
          hasChainHash := true;
        }
        StoreHashes(buf, if linked then n - 1 else n, false);
      }
    }

    /** `sim_vip_check_chunk`, while no digest table is being generated */
    method CheckChunk(buf: bytes)
      requires Valid()
      modifies this`idx, this`log
      ensures Valid() && View() == VipReceiver.CheckChunk(old(View()), buf)
    {
      hide Sha256;
      if count == 0 {
        return;
      }
      var hash := HashOf(buf);
      if idx >= count {
        log := log + [ChunkMissing(idx)];
      } else if hash == hashes[idx] {
        log := log + [ChunkOk(idx)];
      } else {
        log := log + [ChunkMismatch(idx)];
      }
      idx := idx + 1;
    }
  }
}

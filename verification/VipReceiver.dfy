/** What a VIP device does with tables and frames: parse, check the chain, consume one digest per frame. */
module VipReceiver {
  import opened Bytes
  import opened Options
  import opened Sha256Spec
  import opened VipTables

  const MAX_HASHES := 53 + 32 * 255

  /** One line of the receiver's report; the overflow, mismatch and missing lines are errors. */
  datatype Report =
    | TableLoaded(signed: bool, count: nat, total: nat)
    | TableUnrecognised
    | TableOverflow
    | ChainOk
    | ChainMismatch
    | ChunkOk(idx: nat)
    | ChunkMismatch(idx: nat)
    | ChunkMissing(idx: nat)

  predicate IsError(r: Report) {
    r.TableUnrecognised? || r.TableOverflow? || r.ChainMismatch? || r.ChunkMismatch? || r.ChunkMissing?
  }

  /** The digests received so far, the next to use, the awaited chain hash, and the report. */
  datatype Receiver = Receiver(hashes: seq<bytes>, idx: nat, link: Option<bytes>, log: seq<Report>)

  const EMPTY := Receiver([], 0, None, [])

  const MBN_HEADER_SIZE := 40

  function Field(buf: bytes, at: nat): nat
    requires at + 4 <= |buf|
  {
    LittleEndian(buf[at..at + 4])
  }

  /** The digests inside a signed MBN image of version 5 or 6. */
  function SignedPayload(buf: bytes): (r: Option<bytes>)
    ensures r.Some? ==> 0 < |r.value| <= 32 * DIGESTS_PER_SIGNED_FILE && |r.value| % 32 == 0
  {
    if |buf| < MBN_HEADER_SIZE then None
    else
      var version, imageSize, codeSize := Field(buf, 4), Field(buf, 16), Field(buf, 20);
      if version != 5 && version != 6 then None
      else if codeSize == 0 || codeSize % 32 != 0 || codeSize > DIGESTS_PER_SIGNED_FILE * 32
              || imageSize < codeSize || imageSize > |buf| then None
      else
        var offset := |buf| - imageSize;
        if offset < MBN_HEADER_SIZE || offset + codeSize > |buf| then None
        else Some(buf[offset..offset + codeSize])
  }

  /** The first `count` digests of a table. */
  function Entries(table: bytes, count: nat): (r: seq<bytes>)
    requires 32 * count <= |table|
    ensures |r| == count
    ensures forall i :: 0 <= i < count ==> r[i] == table[32 * i..32 * (i + 1)]
  {
    seq(count, i requires 0 <= i < count => table[32 * i..32 * (i + 1)])
  }

  function Store(r: Receiver, entries: seq<bytes>, signed: bool): Receiver
    requires |r.hashes| <= MAX_HASHES
  {
    var overflow := |r.hashes| + |entries| > MAX_HASHES;
    var taken := if overflow then entries[..MAX_HASHES - |r.hashes|] else entries;
    Receiver(r.hashes + taken, r.idx, r.link,
             r.log + (if overflow then [TableOverflow] else [])
             + [TableLoaded(signed, |taken|, |r.hashes| + |taken|)])
  }

  function RecvSigned(r: Receiver, buf: bytes): Receiver
    requires |r.hashes| <= MAX_HASHES
  {
    match SignedPayload(buf)
    case None => r.(log := r.log + [TableUnrecognised])
    case Some(p) =>
      var count := |p| / 32;
      var linked := count == DIGESTS_PER_SIGNED_FILE;
      Store(if linked then r.(link := Some(p[32 * (count - 1)..32 * count])) else r,
            Entries(p, if linked then count - 1 else count), true)
  }

  function CheckLink(r: Receiver, buf: bytes): Receiver {
    if r.link.None? then r
    else r.(log := r.log + [if Sha256(buf) == r.link.value then ChainOk else ChainMismatch], link := None)
  }

  /** A chained table is final when its size is not a multiple of 32. */
  function RecvChained(r: Receiver, buf: bytes): Receiver
    requires |r.hashes| <= MAX_HASHES
  {
    var checked := CheckLink(r, buf);
    var count := |buf| / 32;
    var linked := |buf| % 32 == 0 && count == DIGESTS_PER_CHAINED_FILE;
    Store(if linked then checked.(link := Some(buf[32 * (count - 1)..32 * count])) else checked,
          Entries(buf, if linked then count - 1 else count), false)
  }

  function RecvTable(r: Receiver, buf: bytes, signed: bool): Receiver
    requires |r.hashes| <= MAX_HASHES
  {
    if signed then RecvSigned(r, buf) else RecvChained(r, buf)
  }

  /** Check one frame against the next digest; nothing is checked before a table arrives. */
  function CheckChunk(r: Receiver, frame: bytes): Receiver {
    if r.hashes == [] then r
    else
      var report := if r.idx >= |r.hashes| then ChunkMissing(r.idx)
                    else if Sha256(frame) == r.hashes[r.idx] then ChunkOk(r.idx)
                    else ChunkMismatch(r.idx);
      r.(idx := r.idx + 1, log := r.log + [report])
  }

  function CheckFrames(r: Receiver, frames: seq<bytes>): Receiver {
    if |frames| == 0 then r else CheckChunk(CheckFrames(r, frames[..|frames| - 1]), frames[|frames| - 1])
  }

  /** A frame has no digest exactly behind the last one, and otherwise is right exactly if its hash is its digest. */
  predicate Reports(report: Report, hashes: seq<bytes>, i: nat, frame: bytes) {
    && (report.ChunkMissing? <==> i >= |hashes|)
    && (report.ChunkOk? <==> i < |hashes| && Sha256(frame) == hashes[i])
    && (report.ChunkMismatch? <==> i < |hashes| && Sha256(frame) != hashes[i])
    && (report == ChunkMissing(i) || report == ChunkOk(i) || report == ChunkMismatch(i))
  }

  /** However many frames there are, each has one line, about the digest whose turn it is. */
  lemma {:induction false} FramesReported(r: Receiver, frames: seq<bytes>)
    requires r.hashes != []
    ensures var r' := CheckFrames(r, frames);
            && r' == Receiver(r.hashes, r.idx + |frames|, r.link, r'.log)
            && |r'.log| == |r.log| + |frames| && r'.log[..|r.log|] == r.log
            && forall j :: 0 <= j < |frames| ==> Reports(r'.log[|r.log| + j], r.hashes, r.idx + j, frames[j])
  {
    hide Sha256;
    if |frames| > 0 {
      var init := frames[..|frames| - 1];
      FramesReported(r, init);
      var before := CheckFrames(r, init);
      assert CheckFrames(r, frames).log == before.log + [CheckFrames(r, frames).log[|before.log|]];
    }
  }

  /**
   * Wrapping a payload the way a signer does makes it the payload found: a header with
   * the fields of version 5 or 6, then anything, then the image, which starts with the code.
   */
  lemma WrappedPayloadFound(header: bytes, extra: bytes, payload: bytes, trailer: bytes)
    requires |header| == 40
    requires Field(header, 4) == 5 || Field(header, 4) == 6
    requires Field(header, 20) == |payload| && Field(header, 16) == |payload| + |trailer|
    requires 0 < |payload| <= 32 * DIGESTS_PER_SIGNED_FILE && |payload| % 32 == 0
    ensures SignedPayload(header + extra + payload + trailer) == Some(payload)
  {
    hide LittleEndian;
    var buf := header + extra + payload + trailer;
    assert buf[4..8] == header[4..8];
    assert buf[16..20] == header[16..20];
    assert buf[20..24] == header[20..24];
    assert buf[|header| + |extra|..|header| + |extra| + |payload|] == payload;
  }

  /** An image of version 5 or 6 around a payload: 40 bytes of header, whatever else, the payload, a trailer. */
  ghost predicate Wraps(buf: bytes, header: bytes, extra: bytes, payload: bytes, trailer: bytes) {
    && buf == header + extra + payload + trailer
    && |header| == 40 && (Field(header, 4) == 5 || Field(header, 4) == 6)
    && Field(header, 20) == |payload| && Field(header, 16) == |payload| + |trailer|
    && 0 < |payload| <= 32 * DIGESTS_PER_SIGNED_FILE && |payload| % 32 == 0
  }

  /** A payload is found exactly when the image is wrapped around it. */
  lemma PayloadExactly(buf: bytes, payload: bytes)
    ensures SignedPayload(buf) == Some(payload)
        <==> exists header, extra, trailer :: Wraps(buf, header, extra, payload, trailer)
  {
    hide LittleEndian;
    if SignedPayload(buf) == Some(payload) {
      var offset := |buf| - Field(buf, 16);
      var header, extra, trailer := buf[..40], buf[40..offset], buf[offset + |payload|..];
      assert header[4..8] == buf[4..8] && header[16..20] == buf[16..20] && header[20..24] == buf[20..24];
      assert Wraps(buf, header, extra, payload, trailer);
    }
    forall header, extra, trailer | Wraps(buf, header, extra, payload, trailer)
      ensures SignedPayload(buf) == Some(payload)
    {
      WrappedPayloadFound(header, extra, payload, trailer);
    }
  }
}

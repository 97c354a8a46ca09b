/**
 * The operations that move sectors, and the run of an operation list against the simulator:
 * both sides stay in step, and the frames sent depend on the operations alone.
 */
module Flashing {
  import opened Bytes
  import opened Options
  import opened Numerals
  import opened Framing
  import opened SimDocuments
  import opened Transport
  import opened SimAnswers
  import opened Devices
  import opened VipTables
  import opened VipReceiver
  import opened VipTransfer
  import opened VipProtocol
  import opened Files
  import opened Programming
  import opened Ops
  import opened SparseTheorems
  import opened Commands
  import opened Firehose

  // ----- The frames of a program operation

  /** How many whole sectors fit a payload. */
  function SectorsPerFrame(maxPayload: nat, ss: nat): (r: nat)
    requires 0 < ss <= maxPayload
    ensures r > 0
  {
    ChunkFits(maxPayload, ss, 0);
    maxPayload / ss
  }

  lemma FrameFits(maxPayload: nat, ss: nat, chunk: nat)
    requires 0 < ss <= maxPayload && chunk <= SectorsPerFrame(maxPayload, ss)
    ensures 0 <= chunk * ss <= maxPayload
  {
    ChunkFits(maxPayload, ss, chunk);
  }

  /** The piece of a stream that covers `count` sectors from sector `done` on; a fill pattern restarts with it. */
  function Piece(src: Source, ss: nat, done: nat, count: nat): (r: bytes)
    ensures |r| == count * ss
  {
    Distribute(done, count, ss);
    match src
    case FromFile(_, _) => StreamData(src, (done + count) * ss)[done * ss..]
    case Fill(value) => FillPattern(value, count * ss)
  }

  /** The raw frames from sector `done` on, `per` sectors each but for the last. */
  function RawFrames(src: Source, ss: nat, per: nat, num: nat, done: nat): seq<bytes>
    requires per > 0 && done <= num
    decreases num - done
  {
    if done >= num then []
    else
      var count := Min(per, num - done);
      [Piece(src, ss, done, count)] + RawFrames(src, ss, per, num, done + count)
  }

  /** The raw frames carry the whole data, in order: `num * ss` bytes. */
  lemma {:induction false} RawFramesCarryData(src: Source, ss: nat, per: nat, num: nat, done: nat)
    requires per > 0 && done <= num
    requires src.Fill? ==> num <= per || per * ss % 4 == 0
    requires src.Fill? ==> done == num || (0 <= done * ss && done * ss % 4 == 0)
    ensures 0 <= done * ss <= num * ss
    ensures Joined(RawFrames(src, ss, per, num, done)) == StreamData(src, num * ss)[done * ss..]
    decreases num - done
  {
    hide StreamData, Piece;
    AtMost(done, num, ss);
    Distribute(0, done, ss);
    if done < num {
      var count := Min(per, num - done);
      Distribute(done, count, ss);
      if src.Fill? { NextPhase(ss, per, num, done, count); }
      RawFramesCarryData(src, ss, per, num, done + count);
      AtMost(done, done + count, ss);
      AtMost(done + count, num, ss);
      PieceIsSlice(src, ss, num, done, count);
      var whole := StreamData(src, num * ss);
      assert whole[done * ss..] == whole[done * ss..(done + count) * ss] + whole[(done + count) * ss..];
    }
  }

  /** A further frame keeps the phase, or is the last one. */
  lemma NextPhase(ss: nat, per: nat, num: nat, done: nat, count: nat)
    requires 0 < per && done < num && count == Min(per, num - done)
    requires num <= per || per * ss % 4 == 0
    requires 0 <= done * ss && done * ss % 4 == 0
    ensures done + count == num || (0 <= (done + count) * ss && (done + count) * ss % 4 == 0)
  {
    Distribute(done, count, ss);
  }

  lemma PieceIsSlice(src: Source, ss: nat, num: nat, done: nat, count: nat)
    requires done + count <= num && 0 <= done * ss <= (done + count) * ss <= num * ss
    requires src.Fill? ==> done * ss % 4 == 0
    ensures Piece(src, ss, done, count) == StreamData(src, num * ss)[done * ss..(done + count) * ss]
  {
    hide StreamData;
    Distribute(done, count, ss);
    StreamPrefix(src, (done + count) * ss, num * ss);
    var upTo := StreamData(src, (done + count) * ss);
    assert upTo[done * ss..] == StreamData(src, num * ss)[done * ss..(done + count) * ss];
    if src.Fill? { FillSlice(src.value, done * ss, count * ss); }
  }

  lemma StreamPrefix(src: Source, a: nat, b: nat)
    requires a <= b
    ensures StreamData(src, b)[..a] == StreamData(src, a)
  {
    hide Padded, FillPattern;
    match src {
      case FromFile(content, pos) => PaddedSplits(content, pos, a, b - a);
      case Fill(value) => FillBegins(value, a, b);
    }
  }

  lemma FillSlice(value: nat, a: nat, b: nat)
    requires a % 4 == 0
    ensures StreamData(Fill(value), a + b)[a..] == FillPattern(value, b)
  {
    hide FillPattern;
    FillContinues(value, a, b);
  }

  /** Fetch the next chunk of the stream: from the file, or from the fill pattern. */
  method NextChunk(file: QdlFile, fill: Option<nat>, pattern: bytes, ss: nat, ghost done: nat, chunk: nat,
                   maxPayload: nat, ghost start: nat) returns (buf: bytes)
    requires file.burst > 0 && 0 <= done * ss && 0 <= chunk * ss <= maxPayload
    requires fill.None? ==> file.pos == start + |Available(file.content, start, done * ss)|
    requires fill.Some? ==> pattern == FillPattern(fill.value, maxPayload)
    modifies file
    ensures 0 <= (done + chunk) * ss
    ensures fill.None? ==> file.pos == start + |Available(file.content, start, (done + chunk) * ss)|
    ensures buf == Piece(if fill.Some? then Fill(fill.value) else FromFile(file.content, start), ss, done, chunk)
  {
    hide Padded, FillPattern, Available;
    Distribute(done, chunk, ss);
    if fill.None? {
      buf := file.ReadPadded(chunk * ss);
      AvailableContinues(file.content, start, done * ss, chunk * ss);
      PaddedContinues(file.content, start, done * ss, chunk * ss);
      ghost var before := Padded(file.content, start, done * ss);
      assert (before + buf)[done * ss..] == buf;
    } else {
      buf := pattern[..chunk * ss];
      FillBegins(fill.value, chunk * ss, maxPayload);
    }
  }

  /** The simulator still waits for the sectors from `done` on. */
  predicate Awaiting(qdl: Device, num: nat, ss: nat, done: nat)
    reads qdl
  {
    qdl.pendingBuf == [] && !qdl.closed && done <= num
    && (if done < num then qdl.queue == [] && qdl.phase.RawIn? && qdl.rawRemaining == (num - done) * ss
        else qdl.queue == [SIM_ACK] && qdl.phase.Xml? && qdl.rawRemaining == 0)
  }

  /** One round of the streaming loop. */
  method SendChunk(qdl: Device, file: QdlFile, fill: Option<nat>, pattern: bytes, ss: nat, left: nat, chunk: nat,
                   ghost num: nat, ghost start: nat) returns (ok: bool, ghost buf: bytes)
    requires left <= num && InStep(qdl) && Awaiting(qdl, num, ss, num - left) && 0 < chunk <= left
    requires 0 < ss && 0 <= chunk * ss <= qdl.maxPayloadSize && file.burst > 0 && 0 <= (num - left) * ss
    requires fill.None? ==> file.pos == start + |Available(file.content, start, (num - left) * ss)|
    requires fill.Some? ==> pattern == FillPattern(fill.value, qdl.maxPayloadSize)
    modifies qdl`vipState, qdl`chainedCur, qdl`framesSent, qdl`framesLeft, qdl`parseStatus, qdl`sendingTable
    modifies qdl`queue, qdl`phase, qdl`rawRemaining, qdl`closed, qdl`frames, qdl.checker, qdl.checker.hashes
    modifies qdl`pendingBuf, qdl`pendingOff, qdl`script, qdl`requiresVip
    modifies qdl.gen, qdl.gen.ctx, qdl.gen.ctx.state, qdl.gen.ctx.buffer, file
    ensures 0 <= (num - left + chunk) * ss
    ensures fill.None? ==> file.pos == start + |Available(file.content, start, (num - left + chunk) * ss)|
    ensures buf == Piece(if fill.Some? then Fill(fill.value) else FromFile(file.content, start), ss, num - left, chunk)
    ensures ok <==> old(Covered(qdl, |qdl.frames| + 1))
    ensures ok ==> InStep(qdl) && Awaiting(qdl, num, ss, num - left + chunk) && qdl.frames == old(qdl.frames) + [buf]
    ensures ok ==> qdl.requiresVip == old(qdl.requiresVip)
    ensures qdl.vipState.VipDisabled? <==> old(qdl.vipState).VipDisabled?
  {
    hide InStep, StreamData, Capacity, FillPattern, Piece, SIM_ACK, Available;
    var data := NextChunk(file, fill, pattern, ss, num - left, chunk, qdl.maxPayloadSize, start);
    buf := data;
    ok := StreamChunk(qdl, data);
    Remaining(left, chunk, ss);
  }

  /** `firehose_stream_out` to the simulator, for at least one sector. */
  method StreamFrames(qdl: Device, file: QdlFile, num: nat, ss: nat, fill: Option<nat>, pattern: bytes)
      returns (ok: bool)
    requires InStep(qdl) && Awaiting(qdl, num, ss, 0) && num > 0
    requires 0 < ss <= qdl.maxPayloadSize && file.burst > 0
    requires fill.Some? ==> pattern == FillPattern(fill.value, qdl.maxPayloadSize)
    modifies qdl`vipState, qdl`chainedCur, qdl`framesSent, qdl`framesLeft, qdl`parseStatus, qdl`sendingTable
    modifies qdl`queue, qdl`phase, qdl`rawRemaining, qdl`closed, qdl`frames, qdl.checker, qdl.checker.hashes
    modifies qdl`pendingBuf, qdl`pendingOff, qdl`script, qdl`requiresVip
    modifies qdl.gen, qdl.gen.ctx, qdl.gen.ctx.state, qdl.gen.ctx.buffer, file
    ensures var src := if fill.Some? then Fill(fill.value) else FromFile(file.content, old(file.pos));
            var raw := RawFrames(src, ss, SectorsPerFrame(qdl.maxPayloadSize, ss), num, 0);
            && (ok <==> old(Covered(qdl, |qdl.frames + raw|)))
            && (ok ==> qdl.frames == old(qdl.frames) + raw)
    ensures ok ==> InStep(qdl) && Awaiting(qdl, num, ss, num) && qdl.requiresVip == old(qdl.requiresVip)
    ensures qdl.vipState.VipDisabled? <==> old(qdl.vipState).VipDisabled?
  {
    hide InStep, StreamData, Capacity, FillPattern, Piece, SIM_ACK, Awaiting, Available, SectorsPerFrame;
    ghost var src := if fill.Some? then Fill(fill.value) else FromFile(file.content, file.pos);
    ghost var start := file.pos;
    var per := SectorsPerFrame(qdl.maxPayloadSize, ss);
    ghost var raw := RawFrames(src, ss, per, num, 0);
    ghost var sent: seq<bytes> := [];
    AvailableNothing(file.content, start);
    Distribute(0, 0, ss);
    var left: nat := num;
    while left > 0
      invariant left <= num && InStep(qdl) && Awaiting(qdl, num, ss, num - left)
      invariant raw == sent + RawFrames(src, ss, per, num, num - left)
      invariant qdl.frames == old(qdl.frames) + sent && qdl.requiresVip == old(qdl.requiresVip)
      invariant qdl.vipState.VipDisabled? <==> old(qdl.vipState).VipDisabled?
      invariant sent == [] || Covered(qdl, |qdl.frames|)
      invariant 0 <= (num - left) * ss
      invariant fill.None? ==> file.pos == start + |Available(file.content, start, (num - left) * ss)|
    {
      var chunk := Min(per, left);
      FrameFits(qdl.maxPayloadSize, ss, chunk);
      ghost var buf;
      ok, buf := SendChunk(qdl, file, fill, pattern, ss, left, chunk, num, start);
      if !ok {
        return;
      }
      sent := sent + [buf];
      left := left - chunk;
    }
    ok := true;
  }

  lemma Remaining(left: nat, chunk: nat, ss: nat)
    requires 0 < chunk <= left && 0 < ss
    ensures 0 < chunk * ss <= left * ss && left * ss - chunk * ss == (left - chunk) * ss
    ensures chunk < left ==> chunk * ss < left * ss
  {
    Distribute(chunk, left - chunk, ss);
    AtMost(1, chunk, ss);
    if chunk < left { AtMost(1, left - chunk, ss); }
  }

  /** Wait for the switch to raw mode, the simulator having answered a command. */
  method AwaitSwitch(qdl: Device, name: string)
    requires qdl.PendingOk() && qdl.simulated && Faithful(qdl.codec) && qdl.pendingBuf == [] && !qdl.closed
    requires (name == "program" && qdl.phase.RawIn?) || (name == "read" && qdl.phase.RawOut?)
    requires qdl.queue == [LogDocument(name), SIM_ACK_RAWMODE]
    modifies qdl`pendingBuf, qdl`pendingOff, qdl`script, qdl`queue, qdl`phase, qdl`rawRemaining, qdl`requiresVip
    ensures qdl.PendingOk() && qdl.queue == [] && qdl.pendingBuf == []
    ensures qdl.phase == old(qdl.phase) && qdl.rawRemaining == old(qdl.rawRemaining)
            && qdl.requiresVip == old(qdl.requiresVip)
  {
    hide Await, LogDocument, Faithful, SIM_ACK_RAWMODE, Text, Hear, Parse;
    AwaitLogAndRaw(qdl.codec, name, qdl.phase, qdl.rawRemaining);
    assert qdl.View() == Queued([LogDocument(name), SIM_ACK_RAWMODE], qdl.phase, qdl.rawRemaining);
    var _ := ReadSimulator(qdl, GenericParser, qdl.phase, qdl.rawRemaining, SILENT.(resp := ACK));
  }

  /** Write a command that switches to raw mode, and wait for the switch. */
  method BeginRaw(qdl: Device, node: Node, ghost size: nat) returns (ok: bool)
    requires InStep(qdl) && Idle(qdl) && (node.name == "program" || node.name == "read") && Carried(qdl.codec, node)
    requires UintAttr(node, "num_partition_sectors") * UintAttr(node, "SECTOR_SIZE_IN_BYTES") == size
    modifies qdl`vipState, qdl`chainedCur, qdl`framesSent, qdl`framesLeft, qdl`parseStatus, qdl`sendingTable
    modifies qdl`queue, qdl`phase, qdl`rawRemaining, qdl`closed, qdl`frames, qdl.checker, qdl.checker.hashes
    modifies qdl`pendingBuf, qdl`pendingOff, qdl`script, qdl`requiresVip
    modifies qdl.gen, qdl.gen.ctx, qdl.gen.ctx.state, qdl.gen.ctx.buffer
    ensures ok <==> old(Covered(qdl, |qdl.frames| + 1))
    ensures ok ==> InStep(qdl) && qdl.requiresVip == old(qdl.requiresVip)
    ensures ok ==> qdl.frames == old(qdl.frames) + [qdl.codec.render(node)]
    ensures ok ==> qdl.queue == [] && qdl.pendingBuf == [] && !qdl.closed && qdl.rawRemaining == size
    ensures ok ==> qdl.phase == if node.name == "program" then RawIn else RawOut
    ensures qdl.vipState.VipDisabled? <==> old(qdl.vipState).VipDisabled?
  {
    hide InStep, Await, LogDocument, UintAttr, Answer, Capacity, IsDigestTable, Faithful, SIM_ACK_RAWMODE;
    hide Text, Hear, Parse, SIM_ACK, Carried;
    ok := FirehoseWrite(qdl, node);
    if !ok {
      return;
    }
    AnswerIs(node);
    InStepIsSimulated(qdl);
    label Answered:
    AwaitSwitch(qdl, node.name);
    WaitKeepsStep@Answered(qdl);
  }

  /** Wait for the acknowledgement of the data: there is one once all sectors are in. */
  method EndRaw(qdl: Device) returns (ok: bool)
    requires InStep(qdl) && qdl.queue == [SIM_ACK] && qdl.phase.Xml? && qdl.rawRemaining == 0
    requires qdl.pendingBuf == [] && !qdl.closed
    modifies qdl`pendingBuf, qdl`pendingOff, qdl`script, qdl`queue, qdl`phase, qdl`rawRemaining, qdl`requiresVip
    ensures ok && InStep(qdl) && Idle(qdl) && qdl.requiresVip == old(qdl.requiresVip)
  {
    hide InStep, SIM_ACK, Faithful;
    InStepIsSimulated(qdl);
    var ret := AwaitAcknowledgement(qdl);
    WaitKeepsStep(qdl);
    ok := ret == ACK;
  }

  /** The host's settings that shape what it sends. */
  datatype Setting = Setting(codec: Codec, maxPayloadSize: nat, sectorSize: nat, slot: Option<nat>)

  ghost function SettingOf(qdl: Device): Setting
    reads qdl
  {
    Setting(qdl.codec, qdl.maxPayloadSize, qdl.sectorSize, qdl.slot)
  }

  function EffectiveSize(opSize: nat, c: Setting): nat { if opSize != 0 then opSize else c.sectorSize }

  /** The number of sectors a program operation announces. */
  function Sectors(op: ProgramOp, ss: nat, size: nat): nat
    requires ss > 0
  {
    if op.sparse then op.numSectors else ImageSectors(op.(sectorSize := ss), size)
  }

  function SourceOf(op: ProgramOp, ss: nat, content: bytes): Option<Source> {
    if !op.sparse then Some(FromFile(content, Rewound(op, op.fileOffset * ss)))
    else if op.chunkType == CHUNK_TYPE_RAW then Some(FromFile(content, Rewound(op, op.sparseOffset)))
    else if op.chunkType == CHUNK_TYPE_FILL then Some(Fill(op.fillValue))
    else None
  }

  /** The frames of a program operation; none when it fails. */
  function ProgramFrames(c: Setting, files: map<bytes, bytes>, op: ProgramOp): Option<seq<bytes>>
    requires 0 < EffectiveSize(op.sectorSize, c) <= c.maxPayloadSize
  {
    var ss := EffectiveSize(op.sectorSize, c);
    if op.filename.None? then Some([])
    else if op.filename.value !in files then None
    else
      var content := files[op.filename.value];
      var num, src := Sectors(op, ss, |content|), SourceOf(op, ss, content);
      if src.None? || num == 0 then None
      else
        Some([c.codec.render(ProgramNode(op, ss, num, c.slot))]
             + RawFrames(src.value, ss, SectorsPerFrame(c.maxPayloadSize, ss), num, 0))
  }

  /** The command of a program operation; there is none without an image. */
  function ProgramNodes(c: Setting, files: map<bytes, bytes>, op: ProgramOp): seq<Node>
    requires 0 < EffectiveSize(op.sectorSize, c)
  {
    var ss := EffectiveSize(op.sectorSize, c);
    if op.filename.None? || op.filename.value !in files then []
    else [ProgramNode(op, ss, Sectors(op, ss, |files[op.filename.value]|), c.slot)]
  }

  /** What the loops and the wire format need of a program operation. */
  predicate Streamable(c: Setting, op: ProgramOp) {
    var ss := EffectiveSize(op.sectorSize, c);
    && 0 < ss <= c.maxPayloadSize && ss < Numerals.UINT32_RANGE && op.numSectors < Numerals.UINT32_RANGE
    && (op.sparse && op.chunkType == CHUNK_TYPE_FILL ==> c.maxPayloadSize % 4 == 0)
  }

  /** A fill, if it is one, whose restarts with every frame make no difference. */
  predicate FramesInPhase(c: Setting, op: ProgramOp)
    requires Streamable(c, op)
  {
    InPhase(op.(sectorSize := EffectiveSize(op.sectorSize, c)), c.maxPayloadSize)
  }

  lemma SectorsFit(op: ProgramOp, ss: nat, size: nat)
    requires ss > 0 && op.numSectors < Numerals.UINT32_RANGE
    ensures Sectors(op, ss, size) < Numerals.UINT32_RANGE
  {
  }

  /** All of an image, rounded up to sectors and cut at the partition's size. */
  method CountSectors(op: ProgramOp, ss: nat, size: nat) returns (num: nat)
    requires ss > 0
    ensures num == Sectors(op, ss, size)
  {
    num := op.numSectors;
    if !op.sparse {
      num := (size + ss - 1) / ss % 0x1_0000_0000;
      if op.numSectors != 0 && num > op.numSectors {
        num := op.numSectors;
      }
    }
  }

  /** `firehose_program` without skipblock, on the simulator. */
  method FirehoseProgram(qdl: Device, files: map<bytes, bytes>, op: ProgramOp) returns (ok: bool)
    requires InStep(qdl) && Idle(qdl) && Streamable(SettingOf(qdl), op)
    requires AllCarried(qdl.codec, ProgramNodes(SettingOf(qdl), files, op))
    modifies qdl`vipState, qdl`chainedCur, qdl`framesSent, qdl`framesLeft, qdl`parseStatus, qdl`sendingTable
    modifies qdl`queue, qdl`phase, qdl`rawRemaining, qdl`closed, qdl`frames, qdl.checker, qdl.checker.hashes
    modifies qdl`pendingBuf, qdl`pendingOff, qdl`script, qdl`requiresVip
    modifies qdl.gen, qdl.gen.ctx, qdl.gen.ctx.state, qdl.gen.ctx.buffer
    ensures var sent := ProgramFrames(old(SettingOf(qdl)), files, op);
            && (ok <==> sent.Some? && (sent.value == [] || old(Covered(qdl, |qdl.frames + sent.value|))))
            && (ok ==> qdl.frames == old(qdl.frames) + sent.value)
    ensures ok ==> InStep(qdl) && Idle(qdl) && qdl.requiresVip == old(qdl.requiresVip)
    ensures qdl.vipState.VipDisabled? <==> old(qdl.vipState).VipDisabled?
  {
    hide InStep, Capacity, RawFrames, ProgramNode, SectorsPerFrame, Sectors, SourceOf, Carried, Streamable;
    if op.filename.None? {
      return true;
    }
    if op.filename.value !in files {
      return false;
    }
    StreamableSize(SettingOf(qdl), op);
    var ss := if op.sectorSize != 0 then op.sectorSize else qdl.sectorSize;
    var file := new QdlFile(files[op.filename.value], if op.fromZip then ZipMember else Posix, 4096);
    var num := CountSectors(op, ss, |file.content|);
    assert Carried(qdl.codec, ProgramNodes(SettingOf(qdl), files, op)[0]);
    ok := ProgramImage(qdl, file, op, ss, num);
  }

  lemma StreamableSize(c: Setting, op: ProgramOp)
    requires Streamable(c, op)
    ensures var ss := EffectiveSize(op.sectorSize, c);
            && 0 < ss <= c.maxPayloadSize && ss < Numerals.UINT32_RANGE && op.numSectors < Numerals.UINT32_RANGE
            && (op.sparse && op.chunkType == CHUNK_TYPE_FILL ==> c.maxPayloadSize % 4 == 0)
  {
  }

  /** The command of a program operation, its data, and the final response. */
  method ProgramImage(qdl: Device, file: QdlFile, op: ProgramOp, ss: nat, num: nat) returns (ok: bool)
    requires InStep(qdl) && Idle(qdl) && Carried(qdl.codec, ProgramNode(op, ss, num, qdl.slot))
    requires 0 < ss <= qdl.maxPayloadSize && ss < Numerals.UINT32_RANGE && op.numSectors < Numerals.UINT32_RANGE
    requires file.burst > 0 && file.pos == 0 && (file.kind == ZipMember <==> op.fromZip)
    requires num == Sectors(op, ss, |file.content|)
    requires op.sparse && op.chunkType == CHUNK_TYPE_FILL ==> qdl.maxPayloadSize % 4 == 0
    modifies qdl`vipState, qdl`chainedCur, qdl`framesSent, qdl`framesLeft, qdl`parseStatus, qdl`sendingTable
    modifies qdl`queue, qdl`phase, qdl`rawRemaining, qdl`closed, qdl`frames, qdl.checker, qdl.checker.hashes
    modifies qdl`pendingBuf, qdl`pendingOff, qdl`script, qdl`requiresVip
    modifies qdl.gen, qdl.gen.ctx, qdl.gen.ctx.state, qdl.gen.ctx.buffer, file
    ensures var src := SourceOf(op, ss, file.content);
            && (src.None? || num == 0 ==> !ok)
            && (src.Some? && num > 0 ==>
                  var raw := RawFrames(src.value, ss, SectorsPerFrame(qdl.maxPayloadSize, ss), num, 0);
                  var sent := [qdl.codec.render(ProgramNode(op, ss, num, qdl.slot))] + raw;
                  (ok <==> old(Covered(qdl, |qdl.frames + sent|))) && (ok ==> qdl.frames == old(qdl.frames) + sent))
    ensures ok ==> InStep(qdl) && Idle(qdl) && qdl.requiresVip == old(qdl.requiresVip)
    ensures qdl.vipState.VipDisabled? <==> old(qdl.vipState).VipDisabled?
  {
    hide InStep, Capacity, RawFrames, ProgramNode, UintAttr, SectorsPerFrame, Sectors, SourceOf, Carried;
    SectorsFit(op, ss, |file.content|);
    ProgramSize(op, ss, num, qdl.slot);
    ok := BeginRaw(qdl, ProgramNode(op, ss, num, qdl.slot), num * ss);
    if !ok {
      return;
    }
    ok := SendData(qdl, file, op, ss, num);
  }

  /** Where the data comes from: the file, moved to its start, or a fill pattern; nothing for an unknown chunk type. */
  method FindSource(file: QdlFile, op: ProgramOp, ss: nat, maxPayload: nat)
    returns (known: bool, fill: Option<nat>, pattern: bytes)
    requires file.pos == 0 && (file.kind == ZipMember <==> op.fromZip)
    requires op.sparse && op.chunkType == CHUNK_TYPE_FILL ==> maxPayload % 4 == 0
    modifies file
    ensures known <==> SourceOf(op, ss, file.content).Some?
    ensures known ==> SourceOf(op, ss, file.content).value
                      == if fill.Some? then Fill(fill.value) else FromFile(file.content, file.pos)
    ensures fill.Some? ==>
              op.sparse && op.chunkType == CHUNK_TYPE_FILL && pattern == FillPattern(fill.value, maxPayload)
  {
    hide FillPattern;
    known, fill, pattern := true, None, [];
    if !op.sparse {
      var _ := file.Seek(op.fileOffset * ss);
    } else if op.chunkType == CHUNK_TYPE_RAW {
      var _ := file.Seek(op.sparseOffset);
    } else if op.chunkType == CHUNK_TYPE_FILL {
      fill, pattern := Some(op.fillValue), FillPattern(op.fillValue, maxPayload);
    } else {
      known := false;
    }
  }

  /** The data of a program operation, and the final response. */
  method SendData(qdl: Device, file: QdlFile, op: ProgramOp, ss: nat, num: nat) returns (ok: bool)
    requires InStep(qdl) && qdl.queue == [] && qdl.pendingBuf == [] && !qdl.closed && qdl.phase.RawIn?
             && qdl.rawRemaining == num * ss
    requires 0 < ss <= qdl.maxPayloadSize && file.burst > 0
    requires file.pos == 0 && (file.kind == ZipMember <==> op.fromZip)
    requires op.sparse && op.chunkType == CHUNK_TYPE_FILL ==> qdl.maxPayloadSize % 4 == 0
    modifies qdl`vipState, qdl`chainedCur, qdl`framesSent, qdl`framesLeft, qdl`parseStatus, qdl`sendingTable
    modifies qdl`queue, qdl`phase, qdl`rawRemaining, qdl`closed, qdl`frames, qdl.checker, qdl.checker.hashes
    modifies qdl`pendingBuf, qdl`pendingOff, qdl`script, qdl`requiresVip
    modifies qdl.gen, qdl.gen.ctx, qdl.gen.ctx.state, qdl.gen.ctx.buffer, file
    ensures var src := SourceOf(op, ss, file.content);
            && (src.None? || num == 0 ==> !ok)
            && (src.Some? && num > 0 ==>
                  var raw := RawFrames(src.value, ss, SectorsPerFrame(qdl.maxPayloadSize, ss), num, 0);
                  (ok <==> old(Covered(qdl, |qdl.frames + raw|))) && (ok ==> qdl.frames == old(qdl.frames) + raw))
    ensures ok ==> InStep(qdl) && Idle(qdl) && qdl.requiresVip == old(qdl.requiresVip)
    ensures qdl.vipState.VipDisabled? <==> old(qdl.vipState).VipDisabled?
  {
    hide InStep, Capacity, FillPattern, SIM_ACK, RawFrames, SectorsPerFrame, SourceOf;
    var known, fill, pattern := FindSource(file, op, ss, qdl.maxPayloadSize);
    if !known {
      return false;
    }
    if num == 0 {
      InStepIsSimulated(qdl);
      var ret := NeverAnswered(qdl, GenericParser);
      return ret == ACK;
    }
    ok := StreamFrames(qdl, file, num, ss, fill, pattern);
    if ok {
      ok := EndRaw(qdl);
    }
  }

  /** The simulator has nothing to say: the wait times out. */
  method NeverAnswered(qdl: Device, parser: Parser) returns (ret: int)
    requires qdl.PendingOk() && qdl.simulated && Quiescent(qdl)
    modifies qdl`pendingBuf, qdl`pendingOff, qdl`script, qdl`queue, qdl`phase, qdl`rawRemaining, qdl`requiresVip
    ensures ret == ETIMEDOUT
  {
    hide Await;
    AwaitNothing(qdl.codec, parser, qdl.phase, qdl.rawRemaining);
    assert qdl.View() == Queued([], qdl.phase, qdl.rawRemaining);
    var code, _ := FirehoseRead(qdl, parser);
    ret := code;
  }

  // ----- Read

  /** Raw zeros from the simulator, and its final acknowledgement behind the last of them. */
  lemma {:induction false} GatherZeros(remaining: nat, n: nat)
    requires 0 < n <= remaining
    ensures Live(Queued([], RawOut, remaining).link)
    ensures Gather(Queued([], RawOut, remaining), n)
         == (Some(Zeros(n)), if n == remaining then Queued([SIM_ACK], Xml, 0) else Queued([], RawOut, remaining - n))
  {
    hide SIM_ACK;
    assert Zeros(n) + [] == Zeros(n);
  }

  /** A gathering that had `data` before. */
  function After(data: bytes, g: (Option<bytes>, Reader)): (Option<bytes>, Reader) {
    (if g.0.Some? then Some(data + g.0.value) else None, g.1)
  }

  lemma AfterNothing(g: (Option<bytes>, Reader))
    ensures After([], g) == g
  {
    if g.0.Some? { assert [] + g.0.value == g.0.value; }
  }

  lemma AfterBoth(a: bytes, b: bytes, g: (Option<bytes>, Reader))
    ensures After(a, After(b, g)) == After(a + b, g)
  {
    if g.0.Some? { assert a + (b + g.0.value) == a + b + g.0.value; }
  }

  lemma GatherEnds(buf: bytes, r: Reader)
    requires Live(r.link)
    ensures After(buf, Gather(r, 0)) == (Some(buf), r)
  {
    assert buf + [] == buf;
  }

  lemma AfterFailure(buf: bytes, r: Reader)
    ensures After(buf, (None, r)) == (None, r)
  {
  }

  /** One more read of a gathering. */
  lemma GatherStep(r: Reader, n: nat, d: Delivery, r': Reader)
    requires n > 0 && Live(r.link) && Live(r'.link) && Read(r, n) == (d, r')
    requires d.Got? ==> |d.data| <= n
    ensures d.Got? ==> Gather(r, n) == After(d.data, Gather(r', n - |d.data|))
    ensures d.Quiet? && d.zlp ==> Gather(r, n) == Gather(r', n)
    ensures d.Failed? || (d.Quiet? && !d.zlp) ==> Gather(r, n) == (None, r')
  {
    hide Read, Live;
  }

  /** The inner loop of `firehose_issue_read`: short reads are gathered, empty ones skipped. */
  method GatherChunk(qdl: Device, want: nat) returns (data: Option<bytes>)
    requires qdl.PendingOk() && Live(qdl.Link())
    modifies qdl`pendingBuf, qdl`pendingOff, qdl`script, qdl`queue, qdl`phase, qdl`rawRemaining
    ensures qdl.PendingOk() && (data, qdl.View()) == Gather(old(qdl.View()), want)
  {
    hide LinkRead, LinkSize, Live, Read, Gather, After;
    var buf: bytes := [];
    ghost var r0 := qdl.View();
    AfterNothing(Gather(r0, want));
    while |buf| < want
      invariant |buf| <= want && qdl.PendingOk() && Live(qdl.Link())
      invariant Gather(r0, want) == After(buf, Gather(qdl.View(), want - |buf|))
      decreases ReaderSize(qdl.View())
    {
      ReadShrinks(qdl.View(), want - |buf|);
      ghost var r := qdl.View();
      var n := qdl.QdlRead(want - |buf|);
      GatherStep(r, want - |buf|, n, qdl.View());
      if n.Failed? || (n.Quiet? && !n.zlp) {
        AfterFailure(buf, qdl.View());
        return None;
      }
      if n.Quiet? {
        continue;
      }
      AfterBoth(buf, n.data, Gather(qdl.View(), want - |buf| - |n.data|));
      buf := buf + n.data;
    }
    GatherEnds(buf, qdl.View());
    data := Some(buf);
  }

  lemma {:induction false} GatherStaysLive(r: Reader, n: nat)
    requires Live(r.link)
    ensures Live(Gather(r, n).1.link)
    decreases ReaderSize(r)
  {
    hide LinkRead, LinkSize, Live, Read;
    if n > 0 {
      ReadShrinks(r, n);
      var (d, r') := Read(r, n);
      if d.Got? { GatherStaysLive(r', n - |d.data|); }
      else if d.Quiet? && d.zlp { GatherStaysLive(r', n); }
    }
  }

  /** Sector data, gathered a payload at a time. */
  function ReadAll(r: Reader, ss: nat, per: nat, left: nat): (Option<bytes>, Reader)
    requires per > 0 && Live(r.link)
    decreases left
  {
    hide Live, Gather;
    if left == 0 then (Some([]), r)
    else
      var count := Min(per, left);
      GatherStaysLive(r, Times(count, ss));
      var (data, r') := Gather(r, Times(count, ss));
      if data.None? then (None, r') else After(data.value, ReadAll(r', ss, per, left - count))
  }

  function Times(a: nat, b: nat): nat { a * b }

  lemma {:induction false} ReadAllKeepsOrder(r: Reader, ss: nat, per: nat, left: nat)
    requires per > 0 && Live(r.link) && r.link.Stream?
    ensures var (data, r') := ReadAll(r, ss, per, left);
            && r'.link.Stream? && Live(r'.link)
            && (data.Some? ==> |data.value| == Times(left, ss) && Ahead(r) == data.value + Ahead(r'))
    ensures !Interrupted(r.link.script) ==>
              (ReadAll(r, ss, per, left).0.Some? <==> Times(left, ss) <= |Ahead(r)|)
              && !Interrupted(ReadAll(r, ss, per, left).1.link.script)
    decreases left
  {
    hide Live, Gather, Interrupted, Ahead;
    if left > 0 {
      var count := Min(per, left);
      Distribute(count, left - count, ss);
      GatherStaysLive(r, Times(count, ss));
      GatherKeepsOrder(r, Times(count, ss));
      var (data, r') := Gather(r, Times(count, ss));
      if data.Some? {
        ReadAllKeepsOrder(r', ss, per, left - count);
        var rest := ReadAll(r', ss, per, left - count);
        if rest.0.Some? { assert data.value + (rest.0.value + Ahead(rest.1))
              == data.value + rest.0.value + Ahead(rest.1); }
      }
    }
  }

  lemma {:induction false} ReadAllZeros(ss: nat, per: nat, left: nat)
    requires per > 0 && ss > 0 && left > 0
    ensures Live(Queued([], RawOut, Times(left, ss)).link)
    ensures ReadAll(Queued([], RawOut, Times(left, ss)), ss, per, left)
         == (Some(Zeros(Times(left, ss))), Queued([SIM_ACK], Xml, 0))
    decreases left
  {
    hide Gather, SIM_ACK;
    var count := Min(per, left);
    Remaining(left, count, ss);
    GatherZeros(Times(left, ss), Times(count, ss));
    if count < left {
      ReadAllZeros(ss, per, left - count);
      assert Times(left, ss) - Times(count, ss) == Times(left - count, ss);
      assert Zeros(Times(count, ss)) + Zeros(Times(left - count, ss)) == Zeros(Times(left, ss));
    } else {
      assert Zeros(Times(left, ss)) + [] == Zeros(Times(left, ss));
      GatherStaysLive(Queued([], RawOut, Times(left, ss)), Times(count, ss));
      assert ReadAll(Queued([SIM_ACK], Xml, 0), ss, per, 0) == (Some([]), Queued([SIM_ACK], Xml, 0));
    }
  }

  /** The sector loop of `firehose_issue_read`. */
  method ReadSectors(qdl: Device, num: nat, ss: nat) returns (data: Option<bytes>)
    requires qdl.PendingOk() && Live(qdl.Link()) && 0 < ss <= qdl.maxPayloadSize
    modifies qdl`pendingBuf, qdl`pendingOff, qdl`script, qdl`queue, qdl`phase, qdl`rawRemaining
    ensures qdl.PendingOk()
    ensures (data, qdl.View()) == ReadAll(old(qdl.View()), ss, SectorsPerFrame(qdl.maxPayloadSize, ss), num)
  {
    hide Live, Gather, After, SectorsPerFrame, LinkRead;
    var per := SectorsPerFrame(qdl.maxPayloadSize, ss);
    ghost var r0 := qdl.View();
    var out: bytes := [];
    var left := num;
    AfterNothing(ReadAll(r0, ss, per, num));
    while left > 0
      invariant 0 <= left <= num && qdl.PendingOk() && Live(qdl.Link())
      invariant ReadAll(r0, ss, per, num) == After(out, ReadAll(qdl.View(), ss, per, left))
    {
      var count := Min(per, left);
      GatherStaysLive(qdl.View(), Times(count, ss));
      var chunk := GatherChunk(qdl, Times(count, ss));
      if chunk.None? {
        AfterFailure(out, qdl.View());
        return None;
      }
      AfterBoth(out, chunk.value, ReadAll(qdl.View(), ss, per, left - count));
      out := out + chunk.value;
      left := left - count;
    }
    assert After(out, (Some([]), qdl.View())) == (Some(out), qdl.View()) by { NothingMore(out, qdl.View()); }
    data := Some(out);
  }

  lemma NothingMore(out: bytes, r: Reader)
    ensures After(out, (Some([]), r)) == (Some(out), r)
  {
    assert out + [] == out;
  }

  /** A read of no sectors: the final acknowledgement comes behind an empty read. */
  lemma AwaitPastNoData(codec: Codec)
    requires Faithful(codec)
    ensures Live(Queued([], RawOut, 0).link)
    ensures Await(codec, GenericParser, Queued([], RawOut, 0), SILENT)
         == Outcome(ACK, SILENT.(resp := ACK), Queued([], Xml, 0))
  {
    hide Faithful, SIM_ACK;
    AwaitAck(codec, Xml, 0);
    assert Read(Queued([], RawOut, 0), BUFFER) == (Quiet(true, false), Queued([SIM_ACK], Xml, 0));
  }

  /** `firehose_issue_read` on the simulator, which serves zeros. */
  method FirehoseIssueRead(qdl: Device, op: ReadOp) returns (data: Option<bytes>)
    requires InStep(qdl) && Idle(qdl) && op.numSectors < Numerals.UINT32_RANGE
    requires 0 < EffectiveSize(op.sectorSize, SettingOf(qdl)) <= qdl.maxPayloadSize
    requires EffectiveSize(op.sectorSize, SettingOf(qdl)) < Numerals.UINT32_RANGE
    requires Carried(qdl.codec, ReadNode(op, EffectiveSize(op.sectorSize, SettingOf(qdl)), qdl.slot))
    modifies qdl`vipState, qdl`chainedCur, qdl`framesSent, qdl`framesLeft, qdl`parseStatus, qdl`sendingTable
    modifies qdl`queue, qdl`phase, qdl`rawRemaining, qdl`closed, qdl`frames, qdl.checker, qdl.checker.hashes
    modifies qdl`pendingBuf, qdl`pendingOff, qdl`script, qdl`requiresVip
    modifies qdl.gen, qdl.gen.ctx, qdl.gen.ctx.state, qdl.gen.ctx.buffer
    ensures data.Some? <==> old(Covered(qdl, |qdl.frames| + 1))
    ensures data.Some? ==> data.value == Zeros(Times(op.numSectors, old(EffectiveSize(op.sectorSize, SettingOf(qdl)))))
    ensures data.Some? ==> InStep(qdl) && Idle(qdl) && qdl.requiresVip == old(qdl.requiresVip)
    ensures var c := old(SettingOf(qdl));
            data.Some? ==>
                qdl.frames == old(qdl.frames) + [c.codec.render(ReadNode(op, EffectiveSize(op.sectorSize, c), c.slot))]
    ensures qdl.vipState.VipDisabled? <==> old(qdl.vipState).VipDisabled?
  {
    hide InStep, Capacity, SIM_ACK, ReadNode, UintAttr, SectorsPerFrame, Carried;
    var ss := if op.sectorSize != 0 then op.sectorSize else qdl.sectorSize;
    ReadSize(op, ss, qdl.slot);
    var ok := BeginRaw(qdl, ReadNode(op, ss, qdl.slot), op.numSectors * ss);
    if !ok {
      return None;
    }
    data := FinishRead(qdl, op.numSectors, ss);
  }

  /** The sectors of a read from the simulator. */
  method ReadSimulatorSectors(qdl: Device, num: nat, ss: nat) returns (data: Option<bytes>)
    requires qdl.PendingOk() && qdl.simulated && 0 < ss <= qdl.maxPayloadSize
    requires qdl.queue == [] && qdl.pendingBuf == [] && !qdl.closed && qdl.phase.RawOut?
             && qdl.rawRemaining == Times(num, ss)
    modifies qdl`pendingBuf, qdl`pendingOff, qdl`script, qdl`queue, qdl`phase, qdl`rawRemaining
    ensures data == Some(Zeros(Times(num, ss))) && qdl.PendingOk()
    ensures qdl.View() == if num > 0 then Queued([SIM_ACK], Xml, 0) else Queued([], RawOut, 0)
  {
    hide SIM_ACK, SectorsPerFrame, ReadAll, Times;
    assert qdl.View() == Queued([], RawOut, Times(num, ss));
    NoSectors(ss);
    if num > 0 { ReadAllZeros(ss, SectorsPerFrame(qdl.maxPayloadSize, ss), num); }
    else { ReadNothing(qdl.View(), ss, SectorsPerFrame(qdl.maxPayloadSize, ss)); }
    data := ReadSectors(qdl, num, ss);
  }

  /** Wait for the response behind the data of a read; without data there is an empty transfer first. */
  method AwaitReadEnd(qdl: Device, num: nat)
    requires qdl.PendingOk() && qdl.simulated && Faithful(qdl.codec) && qdl.pendingBuf == [] && !qdl.closed
    requires qdl.Link() == if num > 0 then Simulated([SIM_ACK], Xml, 0, false) else Simulated([], RawOut, 0, false)
    modifies qdl`pendingBuf, qdl`pendingOff, qdl`script, qdl`queue, qdl`phase, qdl`rawRemaining, qdl`requiresVip
    ensures qdl.PendingOk() && Idle(qdl) && qdl.requiresVip == old(qdl.requiresVip)
  {
    hide SIM_ACK, Faithful, Await, Text, Hear, Parse;
    if num > 0 {
      var _ := AwaitAcknowledgement(qdl);
    } else {
      AwaitPastNoData(qdl.codec);
      assert qdl.View() == Queued([], RawOut, 0);
      var _ := ReadSimulator(qdl, GenericParser, Xml, 0, SILENT.(resp := ACK));
    }
  }

  /** The raw phase of a read, and the response behind it. */
  method FinishRead(qdl: Device, num: nat, ss: nat) returns (data: Option<bytes>)
    requires InStep(qdl) && 0 < ss <= qdl.maxPayloadSize
    requires qdl.queue == [] && qdl.pendingBuf == [] && !qdl.closed && qdl.phase.RawOut?
             && qdl.rawRemaining == Times(num, ss)
    modifies qdl`pendingBuf, qdl`pendingOff, qdl`script, qdl`queue, qdl`phase, qdl`rawRemaining, qdl`requiresVip
    ensures data == Some(Zeros(Times(num, ss)))
    ensures InStep(qdl) && Idle(qdl) && qdl.requiresVip == old(qdl.requiresVip)
  {
    hide InStep, SIM_ACK, Faithful, Await, Times, Text, Hear, Parse, Zeros, ReadAll;
    InStepIsSimulated(qdl);
    data := ReadSimulatorSectors(qdl, num, ss);
    assert qdl.pendingBuf == [] by { assert qdl.View().pending == []; }
    assert qdl.Link() == qdl.View().link;
    AwaitReadEnd(qdl, num);
    WaitKeepsStep(qdl);
  }

  lemma NoSectors(ss: nat)
    ensures Times(0, ss) == 0
  {
  }

  lemma ReadNothing(r: Reader, ss: nat, per: nat)
    requires per > 0 && Live(r.link)
    ensures ReadAll(r, ss, per, 0) == (Some(Zeros(0)), r)
  {
    assert Zeros(0) == [];
  }

  /**
   * The same over a stream: whatever the fragmentation, the sectors read are exactly the
   * bytes behind the closing tag of the response, pushed back or not.
   */
  method ReceiveSectors(qdl: Device, num: nat, ss: nat, ghost chatter: seq<Chatter>, ghost docs: seq<bytes>,
                        ghost ack: bytes, ghost head: bytes, ghost rest: seq<Event>) returns (data: Option<bytes>)
    requires qdl.PendingOk() && 0 < ss <= qdl.maxPayloadSize && Live(Stream(RawAnswer(chatter, docs, ack, head, rest)))
    requires qdl.View() == Reader([], Stream(RawAnswer(chatter, docs, ack, head, rest))) && !Interrupted(rest)
    requires forall i :: 0 <= i < |chatter| ==> OnlyLogs(qdl.codec, GenericParser, chatter[i])
    requires Plain(qdl.codec, GenericParser, docs) && |Joined(docs)| + |ack| <= BUFFER
    requires IsDocument(ack) && qdl.codec.response(ack).Some?
    requires Parse(GenericParser, qdl.codec.response(ack).value) == Parsed(ACK, true, None)
    modifies qdl`pendingBuf, qdl`pendingOff, qdl`script, qdl`queue, qdl`phase, qdl`rawRemaining, qdl`requiresVip
    ensures data.Some? <==> Times(num, ss) <= |head + Payloads(rest)|
    ensures data.Some? ==> data.value == (head + Payloads(rest))[..Times(num, ss)]
    ensures data.Some? ==> qdl.PendingOk() && qdl.View().link.Stream?
                           && Ahead(qdl.View()) == (head + Payloads(rest))[Times(num, ss)..]
  {
    hide Live, Interrupted, RawAnswer, OnlyLogs, Plain, IsDocument, Parse, Await, ReadAll, Ahead, Times,
        SectorsPerFrame, Joined;
    RawModeSplits(qdl.codec, GenericParser, chatter, docs, ack, head, rest, SILENT);
    var ret, _ := FirehoseRead(qdl, GenericParser);
    if ret != ACK {
      assert false;
      return None;
    }
    ReadAllKeepsOrder(qdl.View(), ss, SectorsPerFrame(qdl.maxPayloadSize, ss), num);
    ghost var ahead := Ahead(qdl.View());
    data := ReadSectors(qdl, num, ss);
    if data.Some? {
      assert ahead[..|data.value|] == data.value;
      assert ahead[|data.value|..] == Ahead(qdl.View());
    }
  }

  // ----- Configure

  /** The commands of a configure operation: a second one when the device proposes another size. */
  function ConfigureNodes(c: Setting, name: string): seq<Node> {
    [ConfigureNode(name, c.maxPayloadSize, false)]
    + if c.maxPayloadSize == SIM_PAYLOAD_SIZE then [] else [ConfigureNode(name, SIM_PAYLOAD_SIZE, false)]
  }

  function Rendered(codec: Codec, nodes: seq<Node>): (r: seq<bytes>)
    ensures |r| == |nodes| && forall i :: 0 <= i < |nodes| ==> r[i] == codec.render(nodes[i])
  {
    seq(|nodes|, i requires 0 <= i < |nodes| => codec.render(nodes[i]))
  }

  function ConfigureFrames(c: Setting, name: string): seq<bytes> { Rendered(c.codec, ConfigureNodes(c, name)) }

  /** Wait for the answer to a configure command. */
  method AwaitConfigured(qdl: Device) returns (ret: int, proposed: nat)
    requires qdl.PendingOk() && qdl.simulated && Faithful(qdl.codec) && qdl.pendingBuf == [] && !qdl.closed
    requires qdl.queue == [LogDocument("configure"), SIM_CONFIGURE_ACK] && qdl.phase.Xml? && qdl.rawRemaining == 0
    modifies qdl`pendingBuf, qdl`pendingOff, qdl`script, qdl`queue, qdl`phase, qdl`rawRemaining, qdl`requiresVip
    ensures ret == ACK && proposed == SIM_PAYLOAD_SIZE
    ensures qdl.PendingOk() && Idle(qdl) && qdl.requiresVip == old(qdl.requiresVip)
  {
    hide Await, LogDocument, Faithful, SIM_CONFIGURE_ACK, Text, Hear, Parse;
    AwaitLogAndConfigure(qdl.codec, 0);
    assert qdl.View() == Queued([LogDocument("configure"), SIM_CONFIGURE_ACK], Xml, 0);
    var code, size := FirehoseRead(qdl, ConfigureParser);
    assert qdl.View() == Queued([], Xml, 0);
    ret, proposed := code, if size.Some? then size.value else 0;
  }

  /** `firehose_send_configure`; a write that fails shows as no response. */
  method SendConfigure(qdl: Device, name: string, size: nat) returns (ret: int, proposed: nat)
    requires InStep(qdl) && Idle(qdl) && Carried(qdl.codec, ConfigureNode(name, size, false))
    modifies qdl`vipState, qdl`chainedCur, qdl`framesSent, qdl`framesLeft, qdl`parseStatus, qdl`sendingTable
    modifies qdl`queue, qdl`phase, qdl`rawRemaining, qdl`closed, qdl`frames, qdl.checker, qdl.checker.hashes
    modifies qdl`pendingBuf, qdl`pendingOff, qdl`script, qdl`requiresVip
    modifies qdl.gen, qdl.gen.ctx, qdl.gen.ctx.state, qdl.gen.ctx.buffer
    ensures ret == ACK <==> old(Covered(qdl, |qdl.frames| + 1))
    ensures ret != ACK ==> ret < 0
    ensures ret == ACK ==> InStep(qdl) && Idle(qdl) && qdl.requiresVip == old(qdl.requiresVip)
    ensures ret == ACK ==> proposed == SIM_PAYLOAD_SIZE
    ensures ret == ACK ==> qdl.frames == old(qdl.frames) + [qdl.codec.render(ConfigureNode(name, size, false))]
    ensures qdl.vipState.VipDisabled? <==> old(qdl.vipState).VipDisabled?
  {
    hide InStep, Await, LogDocument, Answer, Capacity, IsDigestTable, Faithful, SIM_CONFIGURE_ACK, ConfigureNode;
    hide Text, Hear, Parse, SIM_ACK, Carried;
    var node := ConfigureNode(name, size, false);
    assert node.name == "configure" by { ConfigureName(name, size); }
    InStepIsSimulated(qdl);
    var ok := FirehoseWrite(qdl, node);
    if !ok {
      ret := NeverAnswered(qdl, ConfigureParser);
      return ret, 0;
    }
    AnswerIs(node);
    InStepIsSimulated(qdl);
    label Answered:
    ret, proposed := AwaitConfigured(qdl);
    WaitKeepsStep@Answered(qdl);
  }

  lemma ConfigureName(name: string, size: nat)
    ensures ConfigureNode(name, size, false).name == "configure"
  {
  }

  method AcceptSize(qdl: Device, size: nat)
    requires InStep(qdl)
    modifies qdl`maxPayloadSize
    ensures InStep(qdl) && qdl.maxPayloadSize == size
  {
    hide Run, DigestsOf, Faithful;
    qdl.maxPayloadSize := size;
  }

  /** `firehose_try_configure` with a known sector size, so that none is probed for. */
  method TryConfigure(qdl: Device, storage: StorageType) returns (ret: int)
    requires InStep(qdl) && Idle(qdl)
    requires storage != Unknown ==>
               AllCarried(qdl.codec, ConfigureNodes(SettingOf(qdl), EncodeStorageType(storage).value))
    modifies qdl`vipState, qdl`chainedCur, qdl`framesSent, qdl`framesLeft, qdl`parseStatus, qdl`sendingTable
    modifies qdl`queue, qdl`phase, qdl`rawRemaining, qdl`closed, qdl`frames, qdl.checker, qdl.checker.hashes
    modifies qdl`pendingBuf, qdl`pendingOff, qdl`script, qdl`requiresVip, qdl`maxPayloadSize
    modifies qdl.gen, qdl.gen.ctx, qdl.gen.ctx.state, qdl.gen.ctx.buffer
    ensures ret == ACK <==>
              storage != Unknown
              && old(Covered(qdl, |qdl.frames + ConfigureFrames(SettingOf(qdl), EncodeStorageType(storage).value)|))
    ensures ret == ACK ==>
              && InStep(qdl) && Idle(qdl) && qdl.requiresVip == old(qdl.requiresVip)
                  && qdl.maxPayloadSize == SIM_PAYLOAD_SIZE
              && qdl.frames == old(qdl.frames) + ConfigureFrames(old(SettingOf(qdl)), EncodeStorageType(storage).value)
    ensures old(qdl.vipState).VipDisabled? && storage != Unknown ==> ret == ACK
    ensures storage == Unknown ==> ret == EINVAL && qdl.requiresVip == old(qdl.requiresVip)
    ensures qdl.vipState.VipDisabled? <==> old(qdl.vipState).VipDisabled?
  {
    hide InStep, Capacity, ConfigureNode, Carried;
    var name := EncodeStorageType(storage);
    if name.None? {
      return EINVAL;
    }
    ghost var nodes := ConfigureNodes(SettingOf(qdl), name.value);
    assert Carried(qdl.codec, nodes[0]) && (|nodes| > 1 ==> Carried(qdl.codec, nodes[1]));
    var size;
    ret, size := SendConfigure(qdl, name.value, qdl.maxPayloadSize);
    if ret < 0 {
      return;
    }
    if size != qdl.maxPayloadSize {
      ret, size := SendConfigure(qdl, name.value, size);
      if ret != ACK {
        return -1;
      }
      AcceptSize(qdl, size);
    }
  }

  /**
   * Without an announcement by the programmer, VIP is given up before the first command;
   * the simulator never makes one.
   */
  method DrainStartup(qdl: Device)
    requires InStep(qdl) && Idle(qdl) && (qdl.requiresVip || qdl.frames == [])
    modifies qdl`pendingBuf, qdl`pendingOff, qdl`script, qdl`queue, qdl`phase, qdl`rawRemaining, qdl`requiresVip,
        qdl`vipState
    ensures InStep(qdl) && Idle(qdl) && qdl.requiresVip == old(qdl.requiresVip)
    ensures qdl.vipState == if qdl.requiresVip then old(qdl.vipState) else VipDisabled
  {
    hide Run, DigestsOf, Faithful, Await;
    AwaitNothing(qdl.codec, GenericParser, Xml, 0);
    assert qdl.View() == Queued([], Xml, 0);
    var _, _ := FirehoseRead(qdl, GenericParser);
    assert qdl.View() == Queued([], Xml, 0);
    if !qdl.requiresVip {
      assert Run(qdl.tables, []) == Session(START, EMPTY, true) by { NoFramesYet(qdl.tables); }
      qdl.vipState := VipDisabled;
    }
  }

  lemma NoFramesYet(tables: Tables)
    ensures Run(tables, []) == Session(START, EMPTY, true)
  {
  }

  /** Whether a configure operation succeeds, from the VIP state and the frames sent before. */
  ghost predicate Configurable(qdl: Device, storage: StorageType)
    reads qdl
  {
    && storage != Unknown
    && (qdl.requiresVip ==> !qdl.vipState.VipDisabled?)
    && (!qdl.requiresVip
        || Covered(qdl, |qdl.frames + ConfigureFrames(SettingOf(qdl), EncodeStorageType(storage).value)|))
  }

  /** `firehose_detect_and_configure`; the simulator answers the first attempt. */
  method DetectAndConfigure(qdl: Device, storage: StorageType) returns (ok: bool)
    requires InStep(qdl) && Idle(qdl) && (Settled(qdl) || qdl.frames == [])
    requires storage != Unknown ==>
               AllCarried(qdl.codec, ConfigureNodes(SettingOf(qdl), EncodeStorageType(storage).value))
    modifies qdl`vipState, qdl`chainedCur, qdl`framesSent, qdl`framesLeft, qdl`parseStatus, qdl`sendingTable
    modifies qdl`queue, qdl`phase, qdl`rawRemaining, qdl`closed, qdl`frames, qdl.checker, qdl.checker.hashes
    modifies qdl`pendingBuf, qdl`pendingOff, qdl`script, qdl`requiresVip, qdl`maxPayloadSize
    modifies qdl.gen, qdl.gen.ctx, qdl.gen.ctx.state, qdl.gen.ctx.buffer
    ensures ok <==> old(Configurable(qdl, storage))
    ensures ok ==>
              InStep(qdl) && Idle(qdl) && qdl.requiresVip == old(qdl.requiresVip)
                  && qdl.maxPayloadSize == SIM_PAYLOAD_SIZE
    ensures ok ==>
              qdl.frames == old(qdl.frames) + ConfigureFrames(old(SettingOf(qdl)), EncodeStorageType(storage).value)
    ensures ok ==> Settled(qdl)
  {
    hide InStep, Capacity, ConfigureFrames, ConfigureNodes, AllCarried;
    if !qdl.vipState.VipDisabled? {
      DrainStartup(qdl);
      var ret := TryConfigure(qdl, storage);
      return ret == ACK;
    }
    var ret := TryConfigure(qdl, storage);
    if qdl.requiresVip {
      return false;
    }
    ok := ret == ACK;
  }

  // ----- Running operations

  datatype Job = Flash(op: Op) | ReadOut(r: ReadOp)

  /** VIP is active exactly when the programmer asked for it. */
  predicate Settled(qdl: Device)
    reads qdl
  {
    qdl.vipState.VipDisabled? <==> !qdl.requiresVip
  }

  predicate JobFits(c: Setting, job: Job) {
    match job
    case Flash(Program(p)) => Streamable(c, p)
    case ReadOut(r) =>
      var ss := EffectiveSize(r.sectorSize, c);
      0 < ss <= c.maxPayloadSize && ss < Numerals.UINT32_RANGE && r.numSectors < Numerals.UINT32_RANGE
    case _ => true
  }

  /** The frames of an operation: they depend on nothing but the operation, the files and the settings. */
  function JobFrames(c: Setting, files: map<bytes, bytes>, job: Job): Option<seq<bytes>>
    requires JobFits(c, job)
  {
    match job
    case Flash(Configure(storage)) =>
      if storage == Unknown then None else Some(ConfigureFrames(c, EncodeStorageType(storage).value))
    case Flash(Program(p)) => ProgramFrames(c, files, p)
    case Flash(Erase(e)) => Some([c.codec.render(EraseNode(e, EffectiveSize(e.sectorSize, c), c.slot))])
    case Flash(Patch(q)) =>
      Some(if q.filename == Some(Text(DISK)) then [c.codec.render(PatchNode(q, Text(DISK), c.slot))] else [])
    case ReadOut(r) => Some([c.codec.render(ReadNode(r, EffectiveSize(r.sectorSize, c), c.slot))])
  }

  /** The commands of an operation. */
  function JobNodes(c: Setting, files: map<bytes, bytes>, job: Job): seq<Node>
    requires JobFits(c, job)
  {
    match job
    case Flash(Configure(storage)) => if storage == Unknown then []
        else ConfigureNodes(c, EncodeStorageType(storage).value)
    case Flash(Program(p)) => ProgramNodes(c, files, p)
    case Flash(Erase(e)) => [EraseNode(e, EffectiveSize(e.sectorSize, c), c.slot)]
    case Flash(Patch(q)) => if q.filename == Some(Text(DISK)) then [PatchNode(q, Text(DISK), c.slot)] else []
    case ReadOut(r) => [ReadNode(r, EffectiveSize(r.sectorSize, c), c.slot)]
  }

  /** The XML library gives back every command of an operation. */
  ghost predicate JobCarried(c: Setting, files: map<bytes, bytes>, job: Job) {
    JobFits(c, job) && AllCarried(c.codec, JobNodes(c, files, job))
  }

  /** An operation's commands are the only ones it sends: all its other frames are a program's data. */
  lemma OnlyTheseCommands(c: Setting, files: map<bytes, bytes>, job: Job)
    requires JobFits(c, job) && JobFrames(c, files, job).Some?
    ensures var sent, nodes := JobFrames(c, files, job).value, JobNodes(c, files, job);
            && |nodes| <= |sent| && sent[..|nodes|] == Rendered(c.codec, nodes)
            && (|nodes| < |sent| ==>
                  && job.Flash? && job.op.Program? && |nodes| == 1
                  && exists src, ss, per, num :: per > 0 && sent[1..] == RawFrames(src, ss, per, num, 0))
  {
    hide RawFrames, ProgramNode, EraseNode, PatchNode, ReadNode, ConfigureNode, Sectors, SectorsPerFrame, Text;
    var sent, nodes := JobFrames(c, files, job).value, JobNodes(c, files, job);
    match job {
      case Flash(Program(p)) =>
        if p.filename.Some? {
          var ss := EffectiveSize(p.sectorSize, c);
          var content := files[p.filename.value];
          var src, num, per := SourceOf(p, ss, content).value, Sectors(p, ss, |content|),
              SectorsPerFrame(c.maxPayloadSize, ss);
          assert sent[1..] == RawFrames(src, ss, per, num, 0);
        }
      case _ =>
    }
  }

  /** The frames of a run; none when an operation fails. */
  function RunFrames(c: Setting, files: map<bytes, bytes>, jobs: seq<Job>): Option<seq<bytes>>
    requires forall i :: 0 <= i < |jobs| ==> JobFits(c, jobs[i])
  {
    if |jobs| == 0 then Some([])
    else
      match RunFrames(c, files, jobs[..|jobs| - 1])
      case None => None
      case Some(sent) =>
        var more := JobFrames(c, files, jobs[|jobs| - 1]);
        if more.None? then None else Some(sent + more.value)
  }

  lemma CoveredSoFar(qdl: Device)
    requires InStep(qdl)
    ensures Covered(qdl, |qdl.frames|)
  {
    hide Run, Capacity, DigestsOf, Faithful;
    if !qdl.vipState.VipDisabled? { RunFits(qdl.tables, qdl.frames); }
  }

  /** One operation against the simulator. */
  method ExecuteJob(qdl: Device, files: map<bytes, bytes>, job: Job) returns (ok: bool)
    requires InStep(qdl) && Idle(qdl) && JobCarried(SettingOf(qdl), files, job)
             && qdl.maxPayloadSize == SIM_PAYLOAD_SIZE
    requires Settled(qdl) || (qdl.frames == [] && job.Flash? && job.op.Configure?)
    modifies qdl`vipState, qdl`chainedCur, qdl`framesSent, qdl`framesLeft, qdl`parseStatus, qdl`sendingTable
    modifies qdl`queue, qdl`phase, qdl`rawRemaining, qdl`closed, qdl`frames, qdl.checker, qdl.checker.hashes
    modifies qdl`pendingBuf, qdl`pendingOff, qdl`script, qdl`requiresVip, qdl`maxPayloadSize
    modifies qdl.gen, qdl.gen.ctx, qdl.gen.ctx.state, qdl.gen.ctx.buffer
    ensures var sent := JobFrames(old(SettingOf(qdl)), files, job);
            && (ok <==> sent.Some? && (old(qdl.requiresVip) ==>
                                         !old(qdl.vipState).VipDisabled?
                                             && old(Covered(qdl, |qdl.frames + sent.value|))))
            && (ok ==> qdl.frames == old(qdl.frames) + sent.value)
    ensures ok ==> InStep(qdl) && Idle(qdl) && Settled(qdl) && qdl.requiresVip == old(qdl.requiresVip)
    ensures ok ==> SettingOf(qdl) == old(SettingOf(qdl))
  {
    hide InStep, Idle, Capacity, ProgramFrames, ConfigureFrames, Streamable, EraseNode, PatchNode, ReadNode, Text;
    hide Carried, ConfigureNodes, ProgramNodes;
    CoveredSoFar(qdl);
    ghost var nodes := JobNodes(SettingOf(qdl), files, job);
    assert |nodes| > 0 ==> Carried(qdl.codec, nodes[0]);
    match job {
      case Flash(Configure(storage)) => ok := DetectAndConfigure(qdl, storage);
      case Flash(Program(p)) => ok := FirehoseProgram(qdl, files, p);
      case Flash(Erase(e)) => ok := FirehoseErase(qdl, e);
      case Flash(Patch(q)) => ok := FirehoseApplyPatch(qdl, q);
      case ReadOut(r) =>
        var data := FirehoseIssueRead(qdl, r);
        ok := data.Some?;
    }
  }
}

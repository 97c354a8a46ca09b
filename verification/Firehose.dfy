/** The host's side of Firehose: waiting for responses, sending tables and frames, and the operations. */
module Firehose {
  import opened Bytes
  import opened Options
  import opened Numerals
  import opened Framing
  import opened SimDocuments
  import opened Transport
  import opened SimAnswers
  import opened Devices
  import opened Sha256Spec
  import opened Sha2
  import opened VipTables
  import opened VipReceiver
  import opened VipGenerator
  import opened VipTransfer
  import opened VipProtocol
  import opened Ops
  import opened Commands
  import Responses

  // ----- firehose_read

  /** The walk over one buffer: each document is bounded, parsed and taken note of. */
  method WalkBuffer(codec: Codec, parser: Parser, buf: bytes, before: Heard) returns (w: Walked)
    ensures w == Walk(codec, parser, buf, 0, before)
  {
    hide StrStr, Parse, AnnouncesVip;
    var h := before;
    var cursor := 0;
    while cursor < |buf|
      invariant cursor <= |buf|
      invariant Walk(codec, parser, buf, 0, before) == Walk(codec, parser, buf, cursor, h)
    {
      var start := StrStr(buf, XML_START, cursor);
      if start.None? {
        break;
      }
      var xmlEnd := StrStr(buf, XML_END, start.value);
      var stop := if xmlEnd.Some? then xmlEnd.value + 7 else |buf|;
      var node := codec.response(buf[start.value..stop]);
      if node.None? {
        return Malformed(h);
      }
      var parsed := Parse(parser, node.value);
      h := Heard(if parsed.code >= 0 then parsed.code else h.resp, h.vip || AnnouncesVip(node.value),
                 if parsed.size.Some? then parsed.size else h.size);
      cursor := stop;
      if parsed.raw {
        return RawMode(h, buf[cursor..]);
      }
    }
    w := More(h);
  }

  lemma {:induction false} WalkKeepsVip(codec: Codec, parser: Parser, buf: bytes, cursor: nat, h: Heard)
    requires cursor <= |buf|
    ensures h.vip ==> Walk(codec, parser, buf, cursor, h).heard.vip
    decreases |buf| - cursor
  {
    hide StrStr, Parse, AnnouncesVip, DocumentEnd;
    var start := StrStr(buf, XML_START, cursor);
    if cursor < |buf| && start.Some? {
      var stop := DocumentEnd(buf, start.value);
      var node := codec.response(buf[start.value..stop]);
      if node.Some? { WalkKeepsVip(codec, parser, buf, stop, Hear(h, parser, node.value)); }
    }
  }

  /** `firehose_read`; bytes are pushed back only while nothing is pending. */
  method FirehoseRead(qdl: Device, parser: Parser) returns (ret: int, size: Option<nat>)
    requires qdl.PendingOk() && |qdl.View().pending| <= BUFFER && Live(qdl.Link())
    modifies qdl`pendingBuf, qdl`pendingOff, qdl`script, qdl`queue, qdl`phase, qdl`rawRemaining, qdl`requiresVip
    ensures qdl.PendingOk() && |qdl.View().pending| <= BUFFER
    ensures var out := Await(qdl.codec, parser, old(qdl.View()), SILENT);
            ret == out.ret && size == out.heard.size && qdl.View() == out.reader
            && qdl.requiresVip == (old(qdl.requiresVip) || out.heard.vip)
    ensures Responses.Understood(qdl.codec, parser, old(qdl.View()), ret, size)
  {
    hide LinkRead, LinkSize, Live, Walk, Await, Responses.Understood;
    Responses.AwaitUnderstands(qdl.codec, parser, qdl.View());
    var h := SILENT;
    ghost var r0, requires0 := qdl.View(), qdl.requiresVip;
    while true
      invariant qdl.PendingOk() && |qdl.View().pending| <= BUFFER && Live(qdl.Link())
      invariant qdl.requiresVip == (requires0 || h.vip)
      invariant Await(qdl.codec, parser, r0, SILENT) == Await(qdl.codec, parser, qdl.View(), h)
      decreases LinkSize(qdl.Link()), |qdl.View().pending|
    {
      ghost var r := qdl.View();
      LinkReadShrinks(r.link, BUFFER);
      ReadShrinks(r, BUFFER);
      var n := qdl.QdlRead(BUFFER);
      AwaitStep(qdl.codec, parser, r, h, n, qdl.View());
      if n.Quiet? && !n.zlp && h.resp >= 0 {
        return h.resp, h.size;
      }
      if n.Failed? {
        return if h.resp < 0 then n.code else h.resp, h.size;
      }
      if n.Quiet? {
        if !n.expired {
          continue;
        }
        return ETIMEDOUT, h.size;
      }
      var w := WalkBuffer(qdl.codec, parser, n.data, h);
      WalkKeepsVip(qdl.codec, parser, n.data, 0, h);
      h := w.heard;
      qdl.requiresVip := qdl.requiresVip || h.vip;
      if w.Malformed? {
        return EINVAL, h.size;
      }
      if w.RawMode? {
        assert qdl.View().pending == [];
        qdl.QdlPushBack(w.rest);
        return h.resp, h.size;
      }
    }
  }

  // ----- Keeping step

  /**
   * Host and simulator agree: on the VIP session so far, or on the digests generated so far.
   */
  ghost predicate InStep(qdl: Device)
    reads qdl, qdl.checker, qdl.checker.hashes, qdl.gen
  {
    && qdl.Footed() && qdl.PendingOk() && qdl.simulated && Faithful(qdl.codec)
    && !qdl.parseStatus && !qdl.sendingTable && qdl.sectorSize > 0
    && VipInStep(qdl) && DigestsInStep(qdl)
  }

  lemma InStepIsSimulated(qdl: Device)
    requires InStep(qdl)
    ensures qdl.PendingOk() && qdl.simulated && Faithful(qdl.codec) && qdl.sectorSize > 0
  {
    hide Run, DigestsOf, Faithful;
  }

  /** Waiting for the simulator touches nothing that host and simulator agree on. */
  twostate lemma WaitKeepsStep(qdl: Device)
    requires old(InStep(qdl)) && qdl.PendingOk()
    requires unchanged(qdl`vipState, qdl`chainedCur, qdl`framesSent, qdl`framesLeft, qdl`parseStatus, qdl`sendingTable)
    requires unchanged(qdl`sectorSize, qdl`frames, qdl`createDigests, qdl`tables)
    requires unchanged(qdl.checker, qdl.checker.hashes, qdl.gen, qdl.gen.ctx, qdl.gen.ctx.state, qdl.gen.ctx.buffer)
    ensures InStep(qdl)
  {
    hide Run, DigestsOf, Faithful;
  }

  ghost predicate VipInStep(qdl: Device)
    requires qdl.Footed()
    reads qdl, qdl.checker, qdl.checker.hashes
  {
    if qdl.vipState.VipDisabled? then qdl.checker.View() == EMPTY
    else !qdl.createDigests && Session(qdl.TransferView(), qdl.checker.View(), true) == Run(qdl.tables, qdl.frames)
  }

  ghost predicate DigestsInStep(qdl: Device)
    reads qdl, qdl.gen
  {
    qdl.createDigests ==>
      qdl.gen.Valid() && qdl.gen.digestNumWritten == |qdl.frames| && qdl.gen.files[FullTable] == DigestsOf(qdl.frames)
  }

  /** Nothing is on its way between host and simulator. */
  predicate Quiescent(qdl: Device)
    reads qdl
  {
    qdl.queue == [] && qdl.pendingBuf == [] && !qdl.closed && !qdl.phase.RawOut?
  }

  /** Between operations. */
  predicate Idle(qdl: Device)
    reads qdl
  {
    Quiescent(qdl) && qdl.phase.Xml? && qdl.rawRemaining == 0
  }

  /** The table `frame` needs is with the simulator, the frame itself is still to come. */
  ghost predicate Expects(qdl: Device, frame: bytes)
    requires qdl.Footed()
    reads qdl, qdl.checker, qdl.checker.hashes
  {
    if qdl.vipState.VipDisabled? then qdl.checker.View() == EMPTY
    else
      !qdl.createDigests
      && Session(qdl.TransferView(), CheckChunk(qdl.checker.View(), frame), true)
          == Run(qdl.tables, qdl.frames + [frame])
  }

  /** Before a table arrives no frame is checked. */
  lemma NothingToCheck(frame: bytes)
    ensures CheckChunk(EMPTY, frame) == EMPTY
  {
  }

  lemma RunExtends(tables: Tables, frames: seq<bytes>, frame: bytes, t: Transfer, r: Receiver)
    requires |r.hashes| <= MAX_HASHES && Run(tables, frames) == Session(t, r, true)
    requires !TableDue(t, |tables.chained|).Missing?
    ensures Run(tables, frames + [frame])
         == Session(AfterFrame(t, |tables.chained|),
                    CheckChunk(Receive(r, TableDue(t, |tables.chained|), tables), frame), true)
  {
    hide CheckChunk, Receive, TableDue, AfterFrame;
    assert (frames + [frame])[..|frames|] == frames;
  }

  lemma LacksTable(tables: Tables, frames: seq<bytes>)
    requires Run(tables, frames).ok
    ensures TableDue(Run(tables, frames).t, |tables.chained|).Missing? <==> |frames| >= Capacity(|tables.chained|)
  {
    hide Run, TransferAt, TableDue, AfterFrame;
    RunFits(tables, frames);
    if |frames| < Capacity(|tables.chained|) { ScheduleStep(|frames|, |tables.chained|); }
    else { ScheduleEnd(|tables.chained|); }
  }

  /** Whether the tables reach to one more frame. */
  predicate Covered(qdl: Device, count: nat)
    reads qdl
  {
    qdl.vipState.VipDisabled? || count <= Capacity(|qdl.tables.chained|)
  }

  /** Wait for a response that consists of one acknowledgement. */
  method AwaitAcknowledgement(qdl: Device) returns (ret: int)
    requires qdl.PendingOk() && qdl.simulated && Faithful(qdl.codec)
    requires qdl.queue == [SIM_ACK] && qdl.pendingBuf == [] && !qdl.closed && !qdl.phase.RawOut?
    modifies qdl`pendingBuf, qdl`pendingOff, qdl`script, qdl`queue, qdl`phase, qdl`rawRemaining, qdl`requiresVip
    ensures ret == ACK && qdl.PendingOk() && Quiescent(qdl) && qdl.requiresVip == old(qdl.requiresVip)
    ensures qdl.phase == old(qdl.phase) && qdl.rawRemaining == old(qdl.rawRemaining)
  {
    hide Await, Faithful, SIM_ACK;
    SimAnswers.AwaitAck(qdl.codec, qdl.phase, qdl.rawRemaining);
    assert qdl.View() == Queued([SIM_ACK], qdl.phase, qdl.rawRemaining);
    ret := ReadSimulator(qdl, GenericParser, qdl.phase, qdl.rawRemaining, SILENT.(resp := ACK));
  }

  /** Wait on the simulator, given what the wait amounts to. */
  method ReadSimulator(qdl: Device, parser: Parser, ghost phase: Phase, ghost remaining: nat, ghost heard: Heard)
    returns (ret: int)
    requires qdl.PendingOk() && qdl.simulated && qdl.pendingBuf == [] && Live(qdl.Link()) && !qdl.closed
    requires Await(qdl.codec, parser, qdl.View(), SILENT) == Outcome(ACK, heard, Queued([], phase, remaining))
    requires !heard.vip
    modifies qdl`pendingBuf, qdl`pendingOff, qdl`script, qdl`queue, qdl`phase, qdl`rawRemaining, qdl`requiresVip
    ensures ret == ACK && qdl.PendingOk() && qdl.queue == [] && qdl.pendingBuf == []
    ensures qdl.phase == phase && qdl.rawRemaining == remaining && qdl.requiresVip == old(qdl.requiresVip)
  {
    hide Await, Live;
    var code, _ := FirehoseRead(qdl, parser);
    ret := code;
    assert qdl.View().pending == [];
    assert qdl.Link() == Simulated([], phase, remaining, false);
  }

  /** The due table, if any, is with the simulator, its acknowledgement queued. */
  method HandOverTable(qdl: Device, ghost frame: bytes) returns (ok: bool)
    requires InStep(qdl) && Quiescent(qdl)
    modifies qdl`vipState, qdl`chainedCur, qdl`framesSent, qdl`framesLeft, qdl`parseStatus, qdl`sendingTable
    modifies qdl`queue, qdl`phase, qdl`rawRemaining, qdl`closed, qdl`frames, qdl.checker, qdl.checker.hashes
    ensures ok <==> old(Covered(qdl, |qdl.frames| + 1))
    ensures qdl.Footed() && !qdl.sendingTable && !qdl.closed
    ensures ok ==> Expects(qdl, frame)
    ensures qdl.queue == if ok && qdl.parseStatus then [SIM_ACK] else []
    ensures qdl.phase == old(qdl.phase) && qdl.rawRemaining == old(qdl.rawRemaining) && qdl.frames == old(qdl.frames)
    ensures qdl.vipState.VipDisabled? <==> old(qdl.vipState).VipDisabled?
  {
    hide Run, CheckChunk, RecvTable, DigestsOf, Faithful, SIM_ACK;
    if !qdl.vipState.VipDisabled? {
      LacksTable(qdl.tables, qdl.frames);
    }
    ghost var t, r := qdl.TransferView(), qdl.checker.View();
    ok := qdl.VipTransferHandleTables();
    if ok && !qdl.vipState.VipDisabled? {
      RunExtends(qdl.tables, qdl.frames, frame, t, r);
    }
  }

  /** Only `frame` itself is missing for host and simulator to be in step again. */
  ghost predicate TableOut(qdl: Device, frame: bytes)
    reads qdl, qdl.checker, qdl.checker.hashes, qdl.gen
  {
    && qdl.Footed() && qdl.PendingOk() && qdl.simulated && Faithful(qdl.codec)
    && !qdl.parseStatus && !qdl.sendingTable && qdl.sectorSize > 0 && Quiescent(qdl) && Expects(qdl, frame)
        && DigestsInStep(qdl)
  }

  /** `firehose_vip_send_table`: the due table, and its acknowledgement. */
  method VipSendTable(qdl: Device, ghost frame: bytes) returns (ok: bool)
    requires InStep(qdl) && Quiescent(qdl)
    modifies qdl`vipState, qdl`chainedCur, qdl`framesSent, qdl`framesLeft, qdl`parseStatus, qdl`sendingTable
    modifies qdl`queue, qdl`phase, qdl`rawRemaining, qdl`closed, qdl`frames, qdl.checker, qdl.checker.hashes
    modifies qdl`pendingBuf, qdl`pendingOff, qdl`script, qdl`requiresVip
    ensures ok <==> old(Covered(qdl, |qdl.frames| + 1))
    ensures if ok then TableOut(qdl, frame) else qdl.PendingOk() && Quiescent(qdl)
    ensures ok ==> qdl.phase == old(qdl.phase) && qdl.rawRemaining == old(qdl.rawRemaining)
    ensures ok ==> qdl.frames == old(qdl.frames) && qdl.requiresVip == old(qdl.requiresVip)
    ensures qdl.vipState.VipDisabled? <==> old(qdl.vipState).VipDisabled?
  {
    hide Run, CheckChunk, DigestsOf, Faithful, SIM_ACK, Await, Capacity, Live, IsDigestTable, SILENT;
    ok := HandOverTable(qdl, frame);
    if ok && qdl.parseStatus {
      AcknowledgeTable(qdl, frame);
    }
  }

  /** Wait for the acknowledgement of a table. */
  method AcknowledgeTable(qdl: Device, ghost frame: bytes)
    requires qdl.Footed() && qdl.PendingOk() && qdl.simulated && Faithful(qdl.codec)
    requires qdl.parseStatus && !qdl.sendingTable && qdl.sectorSize > 0 && Expects(qdl, frame) && DigestsInStep(qdl)
    requires qdl.queue == [SIM_ACK] && qdl.pendingBuf == [] && !qdl.closed && !qdl.phase.RawOut?
    modifies qdl`pendingBuf, qdl`pendingOff, qdl`script, qdl`queue, qdl`phase, qdl`rawRemaining, qdl`requiresVip,
        qdl`parseStatus
    ensures TableOut(qdl, frame) && qdl.requiresVip == old(qdl.requiresVip)
    ensures qdl.phase == old(qdl.phase) && qdl.rawRemaining == old(qdl.rawRemaining)
  {
    hide Run, CheckChunk, DigestsOf, Faithful, SIM_ACK, Await, Live, IsDigestTable, SILENT;
    var _ := AwaitAcknowledgement(qdl);
    qdl.parseStatus := false;
  }

  lemma DigestsExtend(frames: seq<bytes>, frame: bytes)
    ensures DigestsOf(frames + [frame]) == DigestsOf(frames) + Sha256(frame)
  {
    hide Sha256;
    assert (frames + [frame])[..|frames|] == frames;
  }

  /** What the simulator says to a command while idle. */
  function Answer(node: Node): SimState {
    SimState([], Xml, 0, false, EMPTY, []).Respond(node)
  }

  predicate Answers(qdl: Device, node: Node)
    reads qdl
  {
    var a := Answer(node);
    qdl.queue == a.queue && qdl.phase == a.phase && qdl.rawRemaining == a.remaining && qdl.closed == a.closed
  }

  lemma RespondIs(s: SimState, node: Node)
    requires s.queue == [] && s.phase.Xml? && s.remaining == 0 && !s.closed
    ensures s.Respond(node) == Answer(node).(receiver := s.receiver, frames := s.frames)
  {
    hide LogDocument, SIM_ACK, SIM_ACK_RAWMODE, SIM_CONFIGURE_ACK, UintAttr;
  }

  /** What each command is answered with; only a power command ends the session. */
  lemma AnswerIs(node: Node)
    ensures node.name == "erase" || node.name == "patch" ==>
              Answer(node) == SimState([LogDocument(node.name), SIM_ACK], Xml, 0, false, EMPTY, [])
    ensures node.name == "configure" ==>
              Answer(node) == SimState([LogDocument("configure"), SIM_CONFIGURE_ACK], Xml, 0, false, EMPTY, [])
    ensures node.name == "program" || node.name == "read" ==>
              Answer(node) == SimState([LogDocument(node.name), SIM_ACK_RAWMODE],
                                       if node.name == "program" then RawIn else RawOut,
                                       UintAttr(node, "num_partition_sectors") * UintAttr(node, "SECTOR_SIZE_IN_BYTES"),
                                       false, EMPTY, [])
    ensures node.name == "setbootablestoragedrive" || node.name == "ufs" || node.name == "power" ==>
              Answer(node)
              == SimState([LogDocument(node.name), SIM_ACK], Xml, 0, node.name == "power", EMPTY, [])
  {
    hide LogDocument, SIM_ACK, SIM_ACK_RAWMODE, SIM_CONFIGURE_ACK, UintAttr;
  }

  /** An idle simulator takes a command: its answer is queued and the frame checked. */
  method WriteCommand(qdl: Device, s: bytes, ghost node: Node)
    requires qdl.Footed() && qdl.simulated && Idle(qdl) && !qdl.sendingTable && Expects(qdl, s)
    requires qdl.codec.command(s) == Command(node)
    modifies qdl`queue, qdl`phase, qdl`rawRemaining, qdl`closed, qdl`frames, qdl.checker, qdl.checker.hashes
    ensures qdl.Footed() && Answers(qdl, node) && qdl.frames == old(qdl.frames) + [s]
    ensures VipInStep(qdl)
  {
    hide Run, VipReceiver.CheckChunk, SimState.Respond, Answer, SimState.TakeTable, SimState.TakeRaw;
    ghost var before := qdl.SimView();
    NothingToCheck(s);
    qdl.QdlWrite(s);
    RespondIs(before.Checked(s, !qdl.createDigests), node);
  }

  /** Hash a command for the digest table, and write it. */
  method WriteHashed(qdl: Device, s: bytes, ghost node: Node)
    requires TableOut(qdl, s) && Idle(qdl) && qdl.codec.command(s) == Command(node)
    modifies qdl`queue, qdl`phase, qdl`rawRemaining, qdl`closed, qdl`frames, qdl.checker, qdl.checker.hashes
    modifies qdl.gen, qdl.gen.ctx, qdl.gen.ctx.state, qdl.gen.ctx.buffer
    ensures InStep(qdl) && Answers(qdl, node) && qdl.frames == old(qdl.frames) + [s]
  {
    hide Run, DigestsOf, Sha256, CheckChunk, Answer, Faithful;
    qdl.GenChunkInit();
    qdl.GenChunkUpdate(s);
    assert [] + s == s;
    WriteCommand(qdl, s, node);
    DigestsExtend(old(qdl.frames), s);
    qdl.GenChunkStore();
  }

  /** `firehose_write` */
  method FirehoseWrite(qdl: Device, node: Node) returns (ok: bool)
    requires InStep(qdl) && Idle(qdl) && Carried(qdl.codec, node)
    modifies qdl`vipState, qdl`chainedCur, qdl`framesSent, qdl`framesLeft, qdl`parseStatus, qdl`sendingTable
    modifies qdl`queue, qdl`phase, qdl`rawRemaining, qdl`closed, qdl`frames, qdl.checker, qdl.checker.hashes
    modifies qdl`pendingBuf, qdl`pendingOff, qdl`script, qdl`requiresVip
    modifies qdl.gen, qdl.gen.ctx, qdl.gen.ctx.state, qdl.gen.ctx.buffer
    ensures ok <==> old(Covered(qdl, |qdl.frames| + 1))
    ensures if ok then InStep(qdl) && Answers(qdl, node) && qdl.pendingBuf == [] else qdl.PendingOk() && Quiescent(qdl)
    ensures ok ==> qdl.frames == old(qdl.frames) + [qdl.codec.render(node)]
    ensures ok ==> qdl.requiresVip == old(qdl.requiresVip)
    ensures qdl.vipState.VipDisabled? <==> old(qdl.vipState).VipDisabled?
  {
    hide Run, DigestsOf, CheckChunk, Answer, Answers;
    var s := qdl.codec.render(node);
    ok := VipSendTable(qdl, s);
    if ok {
      assert qdl.codec.command(s) == Command(node);
      WriteHashed(qdl, s, node);
    }
  }

  // ----- Erase and patch

  /** A command that is acknowledged and over. */
  method Exchange(qdl: Device, node: Node) returns (ok: bool)
    requires InStep(qdl) && Idle(qdl) && (node.name == "erase" || node.name == "patch") && Carried(qdl.codec, node)
    modifies qdl`vipState, qdl`chainedCur, qdl`framesSent, qdl`framesLeft, qdl`parseStatus, qdl`sendingTable
    modifies qdl`queue, qdl`phase, qdl`rawRemaining, qdl`closed, qdl`frames, qdl.checker, qdl.checker.hashes
    modifies qdl`pendingBuf, qdl`pendingOff, qdl`script, qdl`requiresVip
    modifies qdl.gen, qdl.gen.ctx, qdl.gen.ctx.state, qdl.gen.ctx.buffer
    ensures ok <==> old(Covered(qdl, |qdl.frames| + 1))
    ensures ok ==> InStep(qdl) && Idle(qdl) && qdl.requiresVip == old(qdl.requiresVip)
    ensures ok ==> qdl.frames == old(qdl.frames) + [qdl.codec.render(node)]
    ensures qdl.vipState.VipDisabled? <==> old(qdl.vipState).VipDisabled?
  {
    hide InStep, Await, SIM_ACK, LogDocument, UintAttr, Answer, Capacity, IsDigestTable, Faithful, Carried;
    ok := FirehoseWrite(qdl, node);
    if !ok {
      return;
    }
    AnswerIs(node);
    InStepIsSimulated(qdl);
    AwaitLogAndAck(qdl.codec, node.name, Xml, 0);
    assert qdl.View() == Queued([LogDocument(node.name), SIM_ACK], Xml, 0);
    label Answered:
    var ret := ReadSimulator(qdl, GenericParser, Xml, 0, SILENT.(resp := ACK));
    WaitKeepsStep@Answered(qdl);
    ok := ret == ACK;
  }

  /** `firehose_erase` */
  method FirehoseErase(qdl: Device, op: EraseOp) returns (ok: bool)
    requires InStep(qdl) && Idle(qdl)
    requires Carried(qdl.codec, EraseNode(op, if op.sectorSize != 0 then op.sectorSize else qdl.sectorSize, qdl.slot))
    modifies qdl`vipState, qdl`chainedCur, qdl`framesSent, qdl`framesLeft, qdl`parseStatus, qdl`sendingTable
    modifies qdl`queue, qdl`phase, qdl`rawRemaining, qdl`closed, qdl`frames, qdl.checker, qdl.checker.hashes
    modifies qdl`pendingBuf, qdl`pendingOff, qdl`script, qdl`requiresVip
    modifies qdl.gen, qdl.gen.ctx, qdl.gen.ctx.state, qdl.gen.ctx.buffer
    ensures ok <==> old(Covered(qdl, |qdl.frames| + 1))
    ensures ok ==> InStep(qdl) && Idle(qdl) && qdl.requiresVip == old(qdl.requiresVip)
    ensures ok ==> qdl.frames == old(qdl.frames)
                   + [qdl.codec.render(EraseNode(op, if op.sectorSize != 0 then op.sectorSize
                                                 else qdl.sectorSize, qdl.slot))]
    ensures qdl.vipState.VipDisabled? <==> old(qdl.vipState).VipDisabled?
  {
    hide InStep, PrintD, SignedDecimal, Carried;
    var sectorSize := if op.sectorSize != 0 then op.sectorSize else qdl.sectorSize;
    ok := Exchange(qdl, EraseNode(op, sectorSize, qdl.slot));
  }

  const DISK := "DISK"

  /** `firehose_apply_patch`; only patches of the disk itself are sent. */
  method FirehoseApplyPatch(qdl: Device, op: PatchOp) returns (ok: bool)
    requires InStep(qdl) && Idle(qdl)
    requires op.filename == Some(Text(DISK)) ==> Carried(qdl.codec, PatchNode(op, Text(DISK), qdl.slot))
    modifies qdl`vipState, qdl`chainedCur, qdl`framesSent, qdl`framesLeft, qdl`parseStatus, qdl`sendingTable
    modifies qdl`queue, qdl`phase, qdl`rawRemaining, qdl`closed, qdl`frames, qdl.checker, qdl.checker.hashes
    modifies qdl`pendingBuf, qdl`pendingOff, qdl`script, qdl`requiresVip
    modifies qdl.gen, qdl.gen.ctx, qdl.gen.ctx.state, qdl.gen.ctx.buffer
    ensures var sent := if op.filename == Some(Text(DISK)) then [qdl.codec.render(PatchNode(op, Text(DISK), qdl.slot))]
            else [];
            && (ok <==> sent == [] || old(Covered(qdl, |qdl.frames| + 1)))
            && (ok ==> InStep(qdl) && Idle(qdl) && qdl.requiresVip == old(qdl.requiresVip))
            && (ok ==> qdl.frames == old(qdl.frames) + sent)
    ensures qdl.vipState.VipDisabled? <==> old(qdl.vipState).VipDisabled?
  {
    hide InStep, PrintD, SignedDecimal, Text, Carried;
    if op.filename.None? || op.filename.value != Text(DISK) {
      return true;
    }
    ok := Exchange(qdl, PatchNode(op, op.filename.value, qdl.slot));
  }

  // ----- Program

  /** One frame of raw data: hashed, preceded by the table it needs, and written. */
  method StreamChunk(qdl: Device, buf: bytes) returns (ok: bool)
    requires InStep(qdl) && Quiescent(qdl) && qdl.phase.RawIn?
    modifies qdl`vipState, qdl`chainedCur, qdl`framesSent, qdl`framesLeft, qdl`parseStatus, qdl`sendingTable
    modifies qdl`queue, qdl`phase, qdl`rawRemaining, qdl`closed, qdl`frames, qdl.checker, qdl.checker.hashes
    modifies qdl`pendingBuf, qdl`pendingOff, qdl`script, qdl`requiresVip
    modifies qdl.gen, qdl.gen.ctx, qdl.gen.ctx.state, qdl.gen.ctx.buffer
    ensures ok <==> old(Covered(qdl, |qdl.frames| + 1))
    ensures ok ==> InStep(qdl) && qdl.frames == old(qdl.frames) + [buf] && qdl.requiresVip == old(qdl.requiresVip)
    ensures ok ==> qdl.pendingBuf == [] && !qdl.closed
    ensures ok ==> if |buf| >= old(qdl.rawRemaining)
                   then qdl.queue == [SIM_ACK] && qdl.phase == Xml && qdl.rawRemaining == 0
                   else qdl.queue == [] && qdl.phase == RawIn && qdl.rawRemaining == old(qdl.rawRemaining) - |buf|
    ensures qdl.vipState.VipDisabled? <==> old(qdl.vipState).VipDisabled?
  {
    hide Run, DigestsOf, CheckChunk, SIM_ACK, Faithful, Sha256, Expects, Context.Valid, Capacity;
    qdl.GenChunkInit();
    qdl.GenChunkUpdate(buf);
    assert [] + buf == buf;
    ok := VipSendTable(qdl, buf);
    if ok {
      WriteHashedRaw(qdl, buf);
    }
  }

  /** Write raw data that has been hashed, and store its digest. */
  method WriteHashedRaw(qdl: Device, buf: bytes)
    requires TableOut(qdl, buf) && qdl.phase.RawIn?
    requires qdl.createDigests ==> qdl.gen.ctx.Valid() && qdl.gen.ctx.Message == buf
    modifies qdl`queue, qdl`phase, qdl`rawRemaining, qdl`closed, qdl`frames, qdl.checker, qdl.checker.hashes
    modifies qdl.gen, qdl.gen.ctx, qdl.gen.ctx.state, qdl.gen.ctx.buffer
    ensures InStep(qdl) && qdl.frames == old(qdl.frames) + [buf] && qdl.closed == old(qdl.closed)
    ensures if |buf| >= old(qdl.rawRemaining)
            then qdl.queue == [SIM_ACK] && qdl.phase == Xml && qdl.rawRemaining == 0
            else qdl.queue == [] && qdl.phase == RawIn && qdl.rawRemaining == old(qdl.rawRemaining) - |buf|
  {
    hide Run, DigestsOf, CheckChunk, SIM_ACK, Faithful, Sha256;
    WriteRaw(qdl, buf);
    DigestsExtend(old(qdl.frames), buf);
    qdl.GenChunkStore();
  }

  /** A simulator that receives a program's data takes one frame of it. */
  method WriteRaw(qdl: Device, buf: bytes)
    requires qdl.Footed() && qdl.simulated && qdl.phase.RawIn? && qdl.queue == [] && !qdl.sendingTable
             && Expects(qdl, buf)
    modifies qdl`queue, qdl`phase, qdl`rawRemaining, qdl`closed, qdl`frames, qdl.checker, qdl.checker.hashes
    ensures qdl.Footed() && VipInStep(qdl) && qdl.frames == old(qdl.frames) + [buf] && qdl.closed == old(qdl.closed)
    ensures if |buf| >= old(qdl.rawRemaining)
            then qdl.queue == [SIM_ACK] && qdl.phase == Xml && qdl.rawRemaining == 0
            else qdl.queue == [] && qdl.phase == RawIn && qdl.rawRemaining == old(qdl.rawRemaining) - |buf|
  {
    hide Run, VipReceiver.CheckChunk, SIM_ACK;
    NothingToCheck(buf);
    qdl.QdlWrite(buf);
  }
}

/** A device as the host holds it: push-back buffer, transport, VIP state; and the simulator behind it. */
module Devices {
  import opened Bytes
  import opened Options
  import opened Numerals
  import opened Framing
  import opened SimDocuments
  import opened Transport
  import opened Sha256Spec
  import opened VipReceiver
  import opened VipChecker
  import opened VipGenerator
  import opened VipTransfer

  /** The fields of a command the simulator looks at. */
  function UintAttr(node: Node, name: string): nat {
    if name in node.attrs then Strtoul(node.attrs[name], 10).0 % 0x1_0000_0000 else 0
  }

  /** Everything the simulator keeps, and the frames it took. */
  datatype SimState = SimState(queue: seq<bytes>, phase: Phase, remaining: nat, closed: bool,
                               receiver: Receiver, frames: seq<bytes>)
  {
    /** One VIP frame: counted, and checked against the next digest. */
    function Checked(buf: bytes, checking: bool): SimState {
      this.(receiver := if checking then CheckChunk(receiver, buf) else receiver, frames := frames + [buf])
    }

    function TakeTable(buf: bytes, signed: bool): SimState
      requires |receiver.hashes| <= MAX_HASHES
    {
      this.(receiver := RecvTable(receiver, buf, signed), queue := queue + [SIM_ACK])
    }

    /** Raw data for a program command; its last byte is acknowledged. */
    function TakeRaw(buf: bytes, checking: bool): SimState {
      var s := Checked(buf, checking);
      if |buf| >= remaining then s.(queue := queue + [SIM_ACK], phase := Xml, remaining := 0)
      else s.(remaining := remaining - |buf|)
    }

    function TakeCommand(doc: CommandDoc, buf: bytes, checking: bool): SimState {
      match doc
      case NotXml => this
      case NoCommand => Checked(buf, checking)
      case Command(node) => Checked(buf, checking).Respond(node)
    }

    function Respond(node: Node): SimState {
      var size := UintAttr(node, "num_partition_sectors") * UintAttr(node, "SECTOR_SIZE_IN_BYTES");
      match node.name
      case "configure" => Say([LogDocument("configure"), SIM_CONFIGURE_ACK])
      case "program" => Say([LogDocument("program"), SIM_ACK_RAWMODE]).(phase := RawIn, remaining := size)
      case "read" => Say([LogDocument("read"), SIM_ACK_RAWMODE]).(phase := RawOut, remaining := size)
      case "erase" => Say([LogDocument("erase"), SIM_ACK])
      case "patch" => Say([LogDocument("patch"), SIM_ACK])
      case "setbootablestoragedrive" => Say([LogDocument("setbootablestoragedrive"), SIM_ACK])
      case "ufs" => Say([LogDocument("ufs"), SIM_ACK])
      case "power" => Say([LogDocument("power"), SIM_ACK]).(closed := true)
      case _ => Say([SIM_ACK])
    }

    function Say(docs: seq<bytes>): SimState {
      this.(queue := queue + docs)
    }
  }

  class Device {
    const codec: Codec
    const simulated: bool
    // struct qdl_device
    var pendingBuf: bytes
    var pendingOff: nat
    var maxPayloadSize: nat
    var sectorSize: nat
    var slot: Option<nat>
    // struct vip_transfer_data
    var tables: Tables
    var vipState: VipState
    var chainedCur: nat
    var framesSent: nat
    var framesLeft: nat
    var parseStatus: bool
    var sendingTable: bool
    var requiresVip: bool
    // a stream transport
    var script: seq<Event>
    // struct qdl_device_sim
    const gen: Generator
    var createDigests: bool
    var queue: seq<bytes>
    var phase: Phase
    var rawRemaining: nat
    var closed: bool
    const checker: Checker
    // history
    ghost var frames: seq<bytes>

    constructor (codec: Codec, simulated: bool, script: seq<Event>, tables: Option<Tables>, createDigests: bool)
      ensures this.codec == codec && this.simulated == simulated && this.script == script
      ensures pendingBuf == [] && pendingOff == 0 && queue == [] && phase == Xml && rawRemaining == 0 && !closed
      ensures maxPayloadSize == SIM_PAYLOAD_SIZE && sectorSize == (if simulated then 4096 else 0) && slot == None
      ensures this.createDigests == createDigests && !requiresVip && !parseStatus && !sendingTable
      ensures frames == []
      ensures Footed() && fresh(Footprint() - {this})
      ensures checker.View() == EMPTY
      ensures TransferView() == if tables.Some? then START else Transfer(VipDisabled, 0, 0, 0)
      ensures tables.Some? ==> this.tables == tables.value
      ensures gen.Valid() && gen.digestNumWritten == 0 && gen.files[FullTable] == []
    {
      this.codec, this.simulated, this.script := codec, simulated, script;
      pendingBuf, pendingOff, queue, phase, rawRemaining, closed := [], 0, [], Xml, 0, false;
      maxPayloadSize, sectorSize, slot := SIM_PAYLOAD_SIZE, if simulated then 4096 else 0, None;
      this.createDigests, requiresVip, parseStatus, sendingTable := createDigests, false, false, false;
      this.tables := if tables.Some? then tables.value else Tables([], []);
      vipState := if tables.Some? then VipInit else VipDisabled;
      chainedCur, framesSent, framesLeft := 0, 0, 0;
      frames := [];
      checker := new Checker();
      gen := new Generator(map[]);
    }

    ghost function Footprint(): set<object> {
      {this, checker, checker.hashes, gen, gen.ctx, gen.ctx.state, gen.ctx.buffer}
    }

    ghost predicate Footed()
      reads this, checker
    {
      checker.Valid() && gen.ctx.Allocated()
    }

    ghost function TransferView(): Transfer
      reads this
    {
      Transfer(vipState, chainedCur, framesSent, framesLeft)
    }

    ghost function Link(): Link
      reads this
    {
      if simulated then Simulated(queue, phase, rawRemaining, closed) else Stream(script)
    }

    /** The pushed-back bytes that have not been served, and the transport. */
    ghost function View(): Reader
      requires PendingOk()
      reads this
    {
      Reader(pendingBuf[pendingOff..], Link())
    }

    predicate PendingOk()
      reads this
    {
      (pendingBuf == [] && pendingOff == 0) || pendingOff < |pendingBuf|
    }

    // ----- io.c

    method TransportRead(len: nat) returns (d: Delivery)
      requires len > 0
      modifies this`script, this`queue, this`phase, this`rawRemaining
      ensures (d, Link()) == LinkRead(old(Link()), len)
    {
      if simulated {
        d := SimRead(len);
        return;
      }
      if |script| == 0 {
        return Quiet(false, true);
      }
      match script[0] {
        case Silence(zlp, expired) =>
          d := Quiet(zlp, expired);
          script := script[1..];
        case Lost(gone) =>
          d := Failed(if gone then ENODEV else EIO);
          script := script[1..];
        case Data(p) =>
          if |p| <= len {
            d := Got(p);
            script := script[1..];
          } else {
            d := Got(p[..len]);
            script := [Data(p[len..])] + script[1..];
          }
      }
    }

    method QdlRead(len: nat) returns (d: Delivery)
      requires len > 0 && PendingOk()
      modifies this`pendingBuf, this`pendingOff, this`script, this`queue, this`phase, this`rawRemaining
      ensures PendingOk() && (d, View()) == Read(old(View()), len)
    {
      hide LinkRead;
      if pendingBuf != [] {
        ghost var before := View().pending;
        var available := |pendingBuf| - pendingOff;
        var copy := if available < len then available else len;
        d := Got(pendingBuf[pendingOff..pendingOff + copy]);
        assert before[..copy] == pendingBuf[pendingOff..pendingOff + copy];
        pendingOff := pendingOff + copy;
        assert before[copy..] == pendingBuf[pendingOff..];
        if pendingOff >= |pendingBuf| {
          pendingBuf, pendingOff := [], 0;
        }
        return;
      }
      d := TransportRead(len);
    }

    /** `qdl_push_back`: behind whatever is still pending. */
    method QdlPushBack(data: bytes)
      requires PendingOk()
      modifies this`pendingBuf, this`pendingOff
      ensures PendingOk() && View() == old(View()).(pending := old(View()).pending + data)
    {
      if |data| == 0 {
        return;
      }
      if pendingOff > 0 {
        pendingBuf, pendingOff := pendingBuf[pendingOff..], 0;
      }
      pendingBuf := pendingBuf + data;
    }

    // ----- sim.c

    method SimRead(len: nat) returns (d: Delivery)
      requires len > 0 && simulated
      modifies this`queue, this`phase, this`rawRemaining
      ensures (d, Link()) == LinkRead(old(Link()), len)
    {
      if |queue| > 0 {
        var resp := queue[0];
        if |resp| > len {
          queue := [resp[len..]] + queue[1..];
          return Got(resp[..len]);
        }
        queue := queue[1..];
        return Got(resp);
      }
      if phase.RawOut? {
        var n := Min(len, rawRemaining);
        rawRemaining := rawRemaining - n;
        if rawRemaining == 0 {
          queue := queue + [SIM_ACK];
          assert queue == [SIM_ACK];
          phase := Xml;
        }
        d := if n == 0 then Quiet(true, false) else Got(Zeros(n));
        return;
      }
      d := if closed then Failed(EIO) else Quiet(false, true);
    }

    ghost function SimView(): (s: SimState)
      requires Footed()
      reads this, checker, checker.hashes
      ensures |s.receiver.hashes| <= MAX_HASHES
    {
      SimState(queue, phase, rawRemaining, closed, checker.View(), frames)
    }

    method SimEnqueue(doc: bytes)
      modifies this`queue
      ensures queue == old(queue) + [doc]
    {
      queue := queue + [doc];
    }

    method CheckChunk(buf: bytes)
      requires Footed()
      modifies this`frames, checker`idx, checker`log
      ensures Footed() && SimView() == old(SimView()).Checked(buf, !createDigests)
    {
      hide VipReceiver.CheckChunk;
      frames := frames + [buf];
      if createDigests {
        return;
      }
      checker.CheckChunk(buf);
    }

    /** `sim_write` */
    method SimWrite(buf: bytes)
      requires Footed() && simulated
      modifies this`queue, this`phase, this`rawRemaining, this`closed, this`frames, checker, checker.hashes
      ensures Footed()
      ensures SimView() == if sendingTable && !createDigests then old(SimView()).TakeTable(buf, vipState.VipInit?)
                           else if old(phase).RawIn? then old(SimView()).TakeRaw(buf, !createDigests)
                           else old(SimView()).TakeCommand(codec.command(buf), buf, !createDigests)
    {
      hide RecvTable, SimState.Checked, SIM_ACK, LogDocument, SIM_CONFIGURE_ACK, SIM_ACK_RAWMODE;
      if sendingTable && !createDigests {
        checker.RecvTable(buf, vipState.VipInit?);
        SimEnqueue(SIM_ACK);
        return;
      }
      if phase.RawIn? {
        CheckChunk(buf);
        if |buf| >= rawRemaining {
          SimEnqueue(SIM_ACK);
          phase := Xml;
          rawRemaining := 0;
        } else {
          rawRemaining := rawRemaining - |buf|;
        }
        return;
      }
      var doc := codec.command(buf);
      if doc.NotXml? {
        return;
      }
      CheckChunk(buf);
      if doc.NoCommand? {
        return;
      }
      Dispatch(doc.node);
    }

    /** Log what was asked for, and answer. */
    method SimAnswer(name: string, ack: bytes)
      modifies this`queue
      ensures queue == old(queue) + [LogDocument(name), ack]
    {
      hide LogDocument;
      SimEnqueue(LogDocument(name));
      SimEnqueue(ack);
    }

    method Dispatch(node: Node)
      requires Footed()
      modifies this`queue, this`phase, this`rawRemaining, this`closed
      ensures SimView() == old(SimView()).Respond(node)
    {
      hide SIM_ACK, LogDocument, SIM_CONFIGURE_ACK, SIM_ACK_RAWMODE, UintAttr, VipChecker.Checker.View;
      if node.name == "configure" {
        SimAnswer("configure", SIM_CONFIGURE_ACK);
      } else if node.name == "program" {
        var num, size := UintAttr(node, "num_partition_sectors"), UintAttr(node, "SECTOR_SIZE_IN_BYTES");
        SimAnswer("program", SIM_ACK_RAWMODE);
        phase, rawRemaining := RawIn, num * size;
      } else if node.name == "read" {
        var num, size := UintAttr(node, "num_partition_sectors"), UintAttr(node, "SECTOR_SIZE_IN_BYTES");
        SimAnswer("read", SIM_ACK_RAWMODE);
        phase, rawRemaining := RawOut, num * size;
      } else if node.name in {"erase", "patch", "setbootablestoragedrive", "ufs"} {
        SimAnswer(node.name, SIM_ACK);
      } else if node.name == "power" {
        SimAnswer("power", SIM_ACK);
        closed := true;
      } else {
        SimEnqueue(SIM_ACK);
      }
    }

    /** `qdl_write`; a stream takes everything. */
    method QdlWrite(buf: bytes)
      requires Footed()
      modifies this`queue, this`phase, this`rawRemaining, this`closed, this`frames, checker, checker.hashes
      ensures Footed()
      ensures simulated ==>
                SimView() == if sendingTable && !createDigests then old(SimView()).TakeTable(buf, vipState.VipInit?)
                             else if old(phase).RawIn? then old(SimView()).TakeRaw(buf, !createDigests)
                             else old(SimView()).TakeCommand(codec.command(buf), buf, !createDigests)
      ensures !simulated ==> SimView() == old(SimView())
    {
      if simulated {
        SimWrite(buf);
      }
    }

    // ----- vip.c

    /** `vip_transfer_send_raw` */
    method VipTransferSendRaw(table: bytes)
      requires Footed()
      modifies this`sendingTable, this`queue, this`phase, this`rawRemaining, this`closed, this`frames, checker,
          checker.hashes
      ensures Footed() && !sendingTable
      ensures simulated && !createDigests ==> SimView() == old(SimView()).TakeTable(table, vipState.VipInit?)
    {
      hide SimState.TakeRaw, SimState.TakeCommand, SimState.TakeTable;
      sendingTable := true;
      QdlWrite(table);
      sendingTable := false;
    }

    ghost predicate InSession()
      reads this, checker
    {
      Footed() && simulated && !vipState.VipDisabled? && !createDigests && !sendingTable
    }

    /** Send the signed table, once. */
    method SendSignedTable()
      requires InSession() && vipState.VipInit?
      modifies this`vipState, this`framesSent, this`framesLeft, this`parseStatus, this`sendingTable
      modifies this`queue, this`phase, this`rawRemaining, this`closed, this`frames, checker, checker.hashes
      ensures InSession() && parseStatus && SimView() == old(SimView()).TakeTable(tables.signed, true)
      ensures TransferView() == Transfer(VipSendData, chainedCur, 0, 53)
    {
      hide SimState.TakeTable;
      VipTransferSendRaw(tables.signed);
      vipState, framesSent, framesLeft, parseStatus := VipSendData, 0, 53, true;
    }

    /** Send the next chained table. */
    method SendChainedTable()
      requires InSession() && vipState.VipSendNextTable? && chainedCur < |tables.chained|
      modifies this`vipState, this`chainedCur, this`framesSent, this`framesLeft, this`parseStatus, this`sendingTable
      modifies this`queue, this`phase, this`rawRemaining, this`closed, this`frames, checker, checker.hashes
      ensures InSession() && parseStatus
      ensures SimView() == old(SimView()).TakeTable(tables.chained[old(chainedCur)], false)
      ensures TransferView() == Transfer(VipSendData, old(chainedCur) + 1, 0, 255)
    {
      hide SimState.TakeTable;
      VipTransferSendRaw(tables.chained[chainedCur]);
      vipState, framesSent, framesLeft, parseStatus := VipSendData, 0, 255, true;
      chainedCur := chainedCur + 1;
    }

    /** `vip_transfer_handle_tables` */
    method VipTransferHandleTables() returns (ok: bool)
      requires Footed() && (vipState.VipDisabled? || InSession())
      modifies this`vipState, this`chainedCur, this`framesSent, this`framesLeft, this`parseStatus, this`sendingTable
      modifies this`queue, this`phase, this`rawRemaining, this`closed, this`frames, checker, checker.hashes
      ensures Footed() && sendingTable == old(sendingTable)
      ensures var due := TableDue(old(TransferView()), |tables.chained|);
              && (ok <==> !due.Missing?)
              && TransferView() == (if ok then AfterFrame(old(TransferView()), |tables.chained|)
                                    else old(TransferView()))
              && (due.Missing? || due.NoTable? ==> SimView() == old(SimView()) && parseStatus == old(parseStatus))
              && (due.SignedTable? ==> parseStatus && SimView() == old(SimView()).TakeTable(tables.signed, true))
              && (due.ChainedTableNo? ==>
                    parseStatus && SimView() == old(SimView()).TakeTable(tables.chained[due.i], false))
    {
      hide SimState.TakeTable;
      if vipState == VipDisabled {
        return true;
      }
      if vipState == VipInit {
        SendSignedTable();
      } else if vipState == VipSendNextTable {
        if chainedCur >= |tables.chained| {
          return false;
        }
        SendChainedTable();
      }
      framesSent := framesSent + 1;
      if framesSent >= framesLeft {
        vipState := VipSendNextTable;
      }
      return true;
    }

    /** The hooks of digest generation around one frame. */
    method GenChunkInit()
      requires gen.ctx.Allocated()
      modifies gen.ctx, gen.ctx.state, gen.ctx.buffer
      ensures createDigests ==> gen.ctx.Valid() && gen.ctx.Message == []
    {
      if createDigests {
        gen.ChunkInit();
      }
    }

    method GenChunkUpdate(buf: bytes)
      requires createDigests ==> gen.ctx.Valid()
      modifies gen.ctx, gen.ctx.state, gen.ctx.buffer
      ensures createDigests ==> gen.ctx.Valid() && gen.ctx.Message == old(gen.ctx.Message) + buf
    {
      if createDigests {
        gen.ChunkUpdate(buf);
      }
    }

    method GenChunkStore()
      requires createDigests ==> gen.Valid() && gen.ctx.Valid()
      modifies gen, gen.ctx, gen.ctx.state, gen.ctx.buffer
      ensures createDigests ==> gen.Valid() && gen.digestNumWritten == old(gen.digestNumWritten) + 1
      ensures createDigests ==>
                gen.files == old(gen.files)[FullTable := old(gen.files[FullTable]) + Sha256(old(gen.ctx.Message))]
      ensures !createDigests ==> gen.files == old(gen.files) && gen.digestNumWritten == old(gen.digestNumWritten)
    {
      hide Sha256;
      if createDigests {
        gen.ChunkStore();
      }
    }
  }
}

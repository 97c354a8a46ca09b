/** The trace of an operation is what goes over the wire: its command, and its data in the raw frames. */
module Wire {
  import opened Bytes
  import opened Options
  import opened Ops
  import opened Framing
  import opened Programming
  import opened SparseTheorems
  import opened SimDocuments
  import opened CommandReader
  import opened Commands
  import opened Meaning
  import opened Flashing
  import Files

  /** The files an operation's image is looked up in. */
  function FilesOf(src: Sources, op: ProgramOp): map<bytes, bytes> { if op.fromZip then src.archive else src.files }

  /** A device that takes `frame` for a command, `data` coming behind it, reads action `a` in it. */
  predicate Tells(c: Setting, frame: bytes, data: bytes, a: Action) {
    var doc := c.codec.command(frame);
    doc.Command? && ReadAction(doc.node, data) == Some(Seen(a)) && ReadUint(doc.node, "slot") == c.slot
  }

  /** A program's action: the first frame tells it, and the others are its data cut into pieces. */
  predicate CarriesWrite(c: Setting, a: Action, frames: seq<bytes>) {
    a.Write? && |frames| > 0 && Tells(c, frames[0], Joined(frames[1..]), a) && Joined(frames[1..]) == a.data
  }

  /** Numbers that their C types hold, and an XML library that gives the commands back. */
  ghost predicate Told(c: Setting, op: Op, nodes: seq<Node>) {
    InRange(op) && IsUint(c.sectorSize) && (c.slot.Some? ==> IsUint(c.slot.value)) && AllCarried(c.codec, nodes)
  }

  /**
   * A program operation with an image has frames exactly when it has an action with sectors,
   * and they carry it, a fill being in phase.
   */
  lemma ProgramOnTheWire(c: Setting, src: Sources, op: ProgramOp)
    requires Streamable(c, op) && op.filename.Some?
    ensures ProgramFrames(c, FilesOf(src, op), op).Some?
        <==> ProgramActions(src, c.sectorSize, op).Some? && ProgramActions(src, c.sectorSize, op).value[0].num > 0
    ensures ProgramFrames(c, FilesOf(src, op), op).Some? && FramesInPhase(c, op)
            && Told(c, Program(op), ProgramNodes(c, FilesOf(src, op), op)) ==>
              CarriesWrite(c, ProgramActions(src, c.sectorSize, op).value[0],
                           ProgramFrames(c, FilesOf(src, op), op).value)
  {
    hide ImageSectors, Files.Padded, FillPattern, RawFrames, ProgramNode, SectorsPerFrame, Joined, ReadAction, ReadUint,
         ReadText, Seen, Cut, Text;
    var ss := EffectiveSize(op.sectorSize, c);
    if ContentOf(src, op).Some? {
      var content := ContentOf(src, op).value;
      var p := op.(sectorSize := ss);
      var num, source := Sectors(op, ss, |content|), SourceOf(op, ss, content);
      assert num == SectorsOf(p, content) by { SameSectors(op, ss, content); }
      assert source.Some? <==> ProgramData(p, content).Some?;
      if source.Some? {
        assert ProgramData(p, content) == Some(StreamData(source.value, num * ss)) by { SameData(op, ss, content); }
        if num > 0 && FramesInPhase(c, op) {
          InPhaseFrames(c, op, num, source.value);
          RawFramesCarryData(source.value, ss, SectorsPerFrame(c.maxPayloadSize, ss), num, 0);
          var raw := RawFrames(source.value, ss, SectorsPerFrame(c.maxPayloadSize, ss), num, 0);
          assert ([c.codec.render(ProgramNode(op, ss, num, c.slot))] + raw)[1..] == raw;
          assert 0 * ss == 0;
          if Told(c, Program(op), ProgramNodes(c, FilesOf(src, op), op)) {
            assert Carried(c.codec, ProgramNodes(c, FilesOf(src, op), op)[0]);
            CommandSent(src, c.sectorSize, Program(op), c.slot);
          }
          assert StreamData(source.value, num * ss)[0..] == StreamData(source.value, num * ss);
        }
      }
    }
  }

  lemma InPhaseFrames(c: Setting, op: ProgramOp, num: nat, source: Source)
    requires Streamable(c, op) && FramesInPhase(c, op)
    requires source.Fill? ==> op.sparse && op.chunkType == CHUNK_TYPE_FILL && num == op.numSectors
    ensures var ss := EffectiveSize(op.sectorSize, c);
            var per := SectorsPerFrame(c.maxPayloadSize, ss);
            source.Fill? ==> num <= per || per * ss % 4 == 0
  {
  }

  lemma SameSectors(op: ProgramOp, ss: nat, content: bytes)
    requires 0 < ss
    ensures Sectors(op, ss, |content|) == SectorsOf(op.(sectorSize := ss), content)
  {
    hide ImageSectors;
  }

  lemma SameData(op: ProgramOp, ss: nat, content: bytes)
    requires 0 < ss && SourceOf(op, ss, content).Some?
    ensures ProgramData(op.(sectorSize := ss), content)
         == Some(StreamData(SourceOf(op, ss, content).value, Sectors(op, ss, |content|) * ss))
  {
    hide ImageSectors, Files.Padded, FillPattern;
  }

  /** Erases and patches are one command each, and a device reads their action in it. */
  lemma CommandOnTheWire(c: Setting, src: Sources, op: Op)
    requires op.Erase? || (op.Patch? && op.q.filename == Some(Text(DISK)))
    requires JobFits(c, Job.Flash(op))
    ensures Actions(src, c.sectorSize, op).Some? && |Actions(src, c.sectorSize, op).value| == 1
    ensures JobFrames(c, src.files, Job.Flash(op)).Some? && |JobFrames(c, src.files, Job.Flash(op)).value| == 1
    ensures Told(c, op, JobNodes(c, src.files, Job.Flash(op))) ==>
              Tells(c, JobFrames(c, src.files, Job.Flash(op)).value[0], [], Actions(src, c.sectorSize, op).value[0])
  {
    hide EraseNode, PatchNode, Text, ReadAction, ReadUint, ReadText, Seen, Cut;
    OneAction(src, c.sectorSize, op);
    if Told(c, op, JobNodes(c, src.files, Job.Flash(op))) {
      CommandSent(src, c.sectorSize, op, c.slot);
      assert Carried(c.codec, JobNodes(c, src.files, Job.Flash(op))[0]);
    }
  }

  /** A read is one command, and a device reads in it where to read and how much. */
  lemma ReadOnTheWire(c: Setting, files: map<bytes, bytes>, r: ReadOp)
    requires JobFits(c, ReadOut(r)) && IsInt(r.partition) && (c.slot.Some? ==> IsUint(c.slot.value))
    requires AllCarried(c.codec, JobNodes(c, files, ReadOut(r)))
    ensures JobFrames(c, files, ReadOut(r)).Some? && |JobFrames(c, files, ReadOut(r)).value| == 1
    ensures var doc := c.codec.command(JobFrames(c, files, ReadOut(r)).value[0]);
            && doc.Command? && doc.node.name == "read"
            && SaysWhere(doc.node, EffectiveSize(r.sectorSize, c), r.numSectors, r.partition, Cut(r.startSector),
                         c.slot)
  {
    hide ReadNode, SaysWhere, Cut;
    ReadAttributes(r, EffectiveSize(r.sectorSize, c), c.slot);
    assert Carried(c.codec, JobNodes(c, files, ReadOut(r))[0]);
  }

  /**
   * Configuring is one command with the payload size of the host, and a second one with the simulator's exactly
   * when the host's is another.
   */
  lemma ConfigureOnTheWire(c: Setting, files: map<bytes, bytes>, storage: StorageType)
    requires storage != Unknown && IsUint(c.maxPayloadSize)
    requires AllCarried(c.codec, JobNodes(c, files, Job.Flash(Configure(storage))))
    ensures var sent := JobFrames(c, files, Job.Flash(Configure(storage)));
            && sent.Some? && |sent.value| == (if c.maxPayloadSize == 1048576 then 1 else 2)
            && Proposes(c, sent.value[0], storage, c.maxPayloadSize)
            && (|sent.value| == 2 ==> Proposes(c, sent.value[1], storage, 1048576))
  {
    hide ConfigureNode, ReadUint, ReadText, Text;
    ConfigureAttributes(storage, c.maxPayloadSize);
    ConfigureAttributes(storage, 1048576);
    var nodes := JobNodes(c, files, Job.Flash(Configure(storage)));
    assert Carried(c.codec, nodes[0]);
    if |nodes| == 2 { assert Carried(c.codec, nodes[1]); }
  }

  /** A device reads the payload size and the storage in a frame. */
  predicate Proposes(c: Setting, frame: bytes, storage: StorageType, size: nat) {
    var doc := c.codec.command(frame);
    && doc.Command? && doc.node.name == "configure"
    && ReadUint(doc.node, "MaxPayloadSizeToTargetInBytes") == Some(size)
    && (storage.Emmc? ==> ReadText(doc.node, "MemoryName") == Some(Text("emmc")))
    && (storage.Nand? ==> ReadText(doc.node, "MemoryName") == Some(Text("nand")))
    && (storage.Ufs? ==> ReadText(doc.node, "MemoryName") == Some(Text("ufs")))
    && (storage.Nvme? ==> ReadText(doc.node, "MemoryName") == Some(Text("nvme")))
    && (storage.Spinor? ==> ReadText(doc.node, "MemoryName") == Some(Text("spinor")))
  }
}

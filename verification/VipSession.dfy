/**
 * Whole flashing sessions: an operation list run to its end, and the life of a digest
 * table, from the dry run that makes it to the run that is checked against it.
 */
module VipSession {
  import opened Bytes
  import opened Options
  import opened Framing
  import opened SimDocuments
  import opened Devices
  import opened Sha256Spec
  import opened VipTables
  import opened VipReceiver
  import opened VipGenerator
  import opened VipTransfer
  import opened VipProtocol
  import opened VipTheorems
  import opened Firehose
  import opened Flashing

  // ----- Running a list of operations

  /** A run that has frames has them for every prefix, and no more of them. */
  lemma {:induction false} RunFramesPrefix(c: Setting, files: map<bytes, bytes>, jobs: seq<Job>, i: nat)
    requires forall j :: 0 <= j < |jobs| ==> JobFits(c, jobs[j])
    requires i < |jobs| && RunFrames(c, files, jobs).Some?
    ensures RunFrames(c, files, jobs[..i]).Some? && JobFrames(c, files, jobs[i]).Some?
    ensures |RunFrames(c, files, jobs[..i]).value
         + JobFrames(c, files, jobs[i]).value| <= |RunFrames(c, files, jobs).value|
  {
    hide JobFrames, JobFits;
    var n := |jobs| - 1;
    if i < n {
      RunFramesPrefix(c, files, jobs[..n], i);
      assert jobs[..n][..i] == jobs[..i];
    }
  }

  lemma RunFramesNext(c: Setting, files: map<bytes, bytes>, jobs: seq<Job>, i: nat)
    requires forall j :: 0 <= j < |jobs| ==> JobFits(c, jobs[j])
    requires i < |jobs| && RunFrames(c, files, jobs[..i]).Some? && JobFrames(c, files, jobs[i]).Some?
    ensures RunFrames(c, files, jobs[..i + 1])
         == Some(RunFrames(c, files, jobs[..i]).value + JobFrames(c, files, jobs[i]).value)
  {
    hide JobFrames, JobFits;
    assert jobs[..i + 1][..i] == jobs[..i];
  }

  /** The XML library gives back every command of the run. */
  ghost predicate RunCarried(c: Setting, files: map<bytes, bytes>, jobs: seq<Job>) {
    forall i :: 0 <= i < |jobs| ==> JobCarried(c, files, jobs[i])
  }

  predicate Opens(jobs: seq<Job>) {
    |jobs| > 0 && jobs[0].Flash? && jobs[0].op.Configure?
  }

  /**
   * `firehose_execute_ops` on the simulator: after every operation both sides are idle and
   * in step. The run succeeds exactly when every operation can and, under VIP, the tables
   * reach to its last frame; the frames sent are then those of the operations, in order.
   */
  method ExecuteOps(qdl: Device, files: map<bytes, bytes>, jobs: seq<Job>) returns (ok: bool)
    requires InStep(qdl) && Idle(qdl) && qdl.maxPayloadSize == SIM_PAYLOAD_SIZE
    requires Settled(qdl) || (qdl.frames == [] && Opens(jobs))
    requires forall i :: 0 <= i < |jobs| ==> JobFits(SettingOf(qdl), jobs[i])
    requires RunCarried(SettingOf(qdl), files, jobs)
    modifies qdl`vipState, qdl`chainedCur, qdl`framesSent, qdl`framesLeft, qdl`parseStatus, qdl`sendingTable
    modifies qdl`queue, qdl`phase, qdl`rawRemaining, qdl`closed, qdl`frames, qdl.checker, qdl.checker.hashes
    modifies qdl`pendingBuf, qdl`pendingOff, qdl`script, qdl`requiresVip, qdl`maxPayloadSize
    modifies qdl.gen, qdl.gen.ctx, qdl.gen.ctx.state, qdl.gen.ctx.buffer
    ensures var sent := RunFrames(old(SettingOf(qdl)), files, jobs);
            && (ok <==> sent.Some? && (old(qdl.requiresVip) ==>
                                         !old(qdl.vipState).VipDisabled?
                                             && old(Covered(qdl, |qdl.frames + sent.value|))))
            && (ok ==> qdl.frames == old(qdl.frames) + sent.value)
    ensures ok ==> InStep(qdl) && Idle(qdl) && Settled(qdl) && qdl.requiresVip == old(qdl.requiresVip)
  {
    hide InStep, Idle, Capacity, JobFrames, JobFits, JobCarried;
    ghost var c, before := SettingOf(qdl), qdl.frames;
    assert jobs[..0] == [];
    CoveredSoFar(qdl);
    for i := 0 to |jobs|
      invariant InStep(qdl) && Idle(qdl) && SettingOf(qdl) == c && qdl.maxPayloadSize == SIM_PAYLOAD_SIZE
      invariant qdl.requiresVip == old(qdl.requiresVip)
      invariant if i == 0 then qdl.vipState == old(qdl.vipState) else Settled(qdl)
      invariant i > 0 && qdl.requiresVip ==> !old(qdl.vipState).VipDisabled?
      invariant RunFrames(c, files, jobs[..i]).Some?
      invariant qdl.frames == before + RunFrames(c, files, jobs[..i]).value
      invariant qdl.requiresVip && i > 0 ==> |qdl.frames| <= Capacity(|qdl.tables.chained|)
    {
      if RunFrames(c, files, jobs).Some? { RunFramesPrefix(c, files, jobs, i); }
      ghost var at := qdl.frames;
      ok := ExecuteJob(qdl, files, jobs[i]);
      if !ok {
        return;
      }
      RunFramesNext(c, files, jobs, i);
      assert before + RunFrames(c, files, jobs[..i]).value + JobFrames(c, files, jobs[i]).value
          == before + RunFrames(c, files, jobs[..i + 1]).value;
    }
    assert jobs[..|jobs|] == jobs;
    ok := true;
  }

  // ----- From dry run to flashing

  /** The settings of a fresh simulated device. */
  function SimSetting(codec: Codec): Setting { Setting(codec, SIM_PAYLOAD_SIZE, 4096, None) }

  /** Signing: the payload can be found again in whatever the signer makes of it. */
  ghost predicate Signs(sign: bytes -> bytes) {
    forall p: bytes :: 0 < |p| <= 32 * DIGESTS_PER_SIGNED_FILE && |p| % 32 == 0 ==> SignedPayload(sign(p)) == Some(p)
  }

  /** `--create-digests`: the dry run over the operations, and the tables made from it. */
  method CreateDigests(codec: Codec, files: map<bytes, bytes>, jobs: seq<Job>)
    returns (ok: bool, tables: map<TableFile, bytes>)
    requires Faithful(codec) && Opens(jobs)
    requires forall i :: 0 <= i < |jobs| ==> JobFits(SimSetting(codec), jobs[i])
    requires RunCarried(SimSetting(codec), files, jobs)
    ensures ok <==> RunFrames(SimSetting(codec), files, jobs).Some?
    ensures ok ==> var sent := RunFrames(SimSetting(codec), files, jobs).value;
                   HoldsTables(tables, DigestsOf(sent), |sent|)
  {
    hide JobFrames, JobFits, RunCarried, HoldsTables, Run, DigestsOf;
    var qdl := new Device(codec, true, [], None, true);
    StartsInStep(qdl);
    ok := ExecuteOps(qdl, files, jobs);
    tables := map[];
    if ok {
      assert qdl.frames == RunFrames(SimSetting(codec), files, jobs).value;
      var _ := qdl.gen.CreateChainedTables();
      tables := qdl.gen.files;
    }
  }

  /** A new simulated device is in step. */
  lemma StartsInStep(qdl: Device)
    requires qdl.Footed() && qdl.PendingOk() && qdl.simulated && Faithful(qdl.codec)
    requires !qdl.parseStatus && !qdl.sendingTable && qdl.sectorSize > 0 && qdl.frames == []
    requires qdl.checker.View() == EMPTY
    requires qdl.vipState.VipDisabled? || (qdl.TransferView() == START && !qdl.createDigests)
    requires qdl.createDigests ==> qdl.gen.Valid() && qdl.gen.digestNumWritten == 0 && qdl.gen.files[FullTable] == []
    ensures InStep(qdl)
  {
    hide Faithful;
    NoFramesYet(qdl.tables);
  }

  lemma FirstFrames(c: Setting, files: map<bytes, bytes>, jobs: seq<Job>)
    requires Opens(jobs) && forall j :: 0 <= j < |jobs| ==> JobFits(c, jobs[j])
    ensures RunFrames(c, files, jobs).Some? ==> |RunFrames(c, files, jobs).value| > 0
  {
    hide JobFits;
    if RunFrames(c, files, jobs).Some? {
      RunFramesPrefix(c, files, jobs, 0);
      assert jobs[..0] == [];
    }
  }

  /**
   * Flash with `tables`, under VIP when the programmer announces it. The simulator makes no
   * announcement, and then the tables are never sent and nothing is checked.
   */
  method FlashWithTables(codec: Codec, files: map<bytes, bytes>, jobs: seq<Job>, tables: Tables, announced: bool)
    returns (ok: bool, log: seq<Report>)
    requires Faithful(codec) && Opens(jobs)
    requires forall i :: 0 <= i < |jobs| ==> JobFits(SimSetting(codec), jobs[i])
    requires RunCarried(SimSetting(codec), files, jobs)
    ensures var sent := RunFrames(SimSetting(codec), files, jobs);
            && (ok <==> sent.Some? && (announced ==> |sent.value| <= Capacity(|tables.chained|)))
            && (ok ==> log == if announced then Run(tables, sent.value).r.log else [])
  {
    hide JobFrames, JobFits, RunCarried, Run, Faithful;
    var qdl := new Device(codec, true, [], Some(tables), false);
    StartsInStep(qdl);
    qdl.requiresVip := announced;
    assert InStep(qdl) by { StartsInStep(qdl); }
    ok := ExecuteOps(qdl, files, jobs);
    log := qdl.checker.log;
    if ok {
      assert qdl.frames == RunFrames(SimSetting(codec), files, jobs).value;
      assert qdl.tables == tables;
      assert Settled(qdl) && qdl.requiresVip == announced;
      assert VipInStep(qdl);
      assert log == qdl.checker.View().log;
    }
  }

  /**
   * The life of a digest table: a dry run over the operations makes it, it is signed, and
   * the same operations are flashed under it. The second run succeeds exactly when there are
   * at most 53 + 32 * 255 frames; then every table passes its check and every frame matches
   * its own digest. Without the programmer's announcement the report stays empty.
   */
  method CreateSignFlash(codec: Codec, files: map<bytes, bytes>, jobs: seq<Job>, sign: bytes -> bytes, announced: bool)
    returns (created: bool, flashed: bool, log: seq<Report>)
    requires Faithful(codec) && Opens(jobs) && Signs(sign)
    requires forall i :: 0 <= i < |jobs| ==> JobFits(SimSetting(codec), jobs[i])
    requires RunCarried(SimSetting(codec), files, jobs)
    ensures var sent := RunFrames(SimSetting(codec), files, jobs);
            && (created <==> sent.Some?)
            && (flashed <==> sent.Some? && (announced ==> |sent.value| <= MAX_HASHES))
            && (flashed && announced ==>
                  && (forall i :: 0 <= i < |sent.value| ==> ChunkOk(i) in log)
                  && (forall r :: r in log ==> !IsError(r)))
            && (flashed && !announced ==> log == [])
  {
    hide JobFrames, JobFits, RunCarried, HoldsTables, Run, DigestsOf, Faithful, SignedPayload, OpenTables, LogOf;
    var files', tables, t;
    created, files' := CreateDigests(codec, files, jobs);
    flashed, log := false, [];
    if !created {
      return;
    }
    FirstFrames(SimSetting(codec), files, jobs);
    ghost var sent := RunFrames(SimSetting(codec), files, jobs).value;
    TableToSignFits(files', DigestsOf(sent), |sent|);
    var signed := sign(files'[ToSign]);
    tables, t := TransferInit(files', signed);
    EndToEnd(files', signed, sent);
    RunFits(tables, sent);
    flashed, log := FlashWithTables(codec, files, jobs, tables, announced);
  }

  lemma TableToSignFits(files: map<TableFile, bytes>, full: bytes, n: nat)
    requires 0 < n && HoldsTables(files, full, n)
    ensures ToSign in files && 0 < |files[ToSign]| <= 32 * DIGESTS_PER_SIGNED_FILE && |files[ToSign]| % 32 == 0
  {
    hide Sha256, ChainedTable;
  }
}

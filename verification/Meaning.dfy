/**
 * What a list of operations means: for each storage, the ordered trace of writes, erases
 * and patches it receives, the commands that carry them, and the flash contents they leave.
 */
module Meaning {
  import opened Bytes
  import opened Options
  import opened Numerals
  import opened Flash
  import opened Ops
  import opened SparseTheorems
  import opened CommandReader
  import Commands
  import Framing

  /** Where images come from: the host's files, and the members of the package. */
  datatype Sources = Sources(files: map<bytes, bytes>, archive: map<bytes, bytes>)

  /** What NAND storage is told besides. */
  datatype Geometry = Geometry(pagesPerBlock: nat, lastSector: nat, partLabel: Option<bytes>)

  datatype Action =
    | Write(partition: int, sectorSize: nat, start: Option<bytes>, num: nat, nand: Option<Geometry>, data: bytes)
    | Wipe(partition: int, sectorSize: nat, start: Option<bytes>, num: nat, pages: Option<nat>)
    | Edit(partition: int, sectorSize: nat, byteOffset: nat, size: nat, start: Option<bytes>, value: Option<bytes>)

  const DISK := "DISK"

  /** An operation without a sector size takes the storage's. */
  function Effective(size: nat, storageSize: nat): nat { if size != 0 then size else storageSize }

  function SectorsOf(op: ProgramOp, content: bytes): nat
    requires 0 < op.sectorSize
  {
    if op.sparse then op.numSectors else ImageSectors(op, |content|)
  }

  function ContentOf(src: Sources, op: ProgramOp): Option<bytes>
    requires op.filename.Some?
  {
    var files := if op.fromZip then src.archive else src.files;
    if op.filename.value in files then Some(files[op.filename.value]) else None
  }

  function ProgramActions(src: Sources, storageSize: nat, op: ProgramOp): Option<seq<Action>> {
    var p := op.(sectorSize := Effective(op.sectorSize, storageSize));
    if op.filename.None? then Some([])
    else if ContentOf(src, op).None? || p.sectorSize == 0 then None
    else
      var content := ContentOf(src, op).value;
      match ProgramData(p, content)
      case None => None
      case Some(data) =>
        var nand := if op.isNand then Some(Geometry(op.pagesPerBlock, op.lastSector, op.partLabel)) else None;
        Some([Write(op.partition, p.sectorSize, op.startSector, SectorsOf(p, content), nand, data)])
  }

  /** What an operation does to the storage; none when it fails. */
  function Actions(src: Sources, storageSize: nat, op: Op): Option<seq<Action>> {
    match op
    case Configure(_) => Some([])
    case Program(p) => ProgramActions(src, storageSize, p)
    case Erase(e) =>
      var pages := if e.isNand then Some(e.pagesPerBlock) else None;
      Some([Wipe(e.partition, Effective(e.sectorSize, storageSize), e.startSector, e.numSectors, pages)])
    case Patch(q) =>
      if q.filename != Some(Text(DISK)) then Some([])
      else Some([Edit(q.partition, q.sectorSize, q.byteOffset, q.sizeInBytes, q.startSector, q.value)])
  }

  /** The storage that is configured after the operations. */
  function Current(ops: seq<Op>): Option<StorageType> {
    if |ops| == 0 then None
    else if ops[|ops| - 1].Configure? then Some(ops[|ops| - 1].storage)
    else Current(ops[..|ops| - 1])
  }

  /** A selection of operations. */
  datatype Part = All | Stores | Edits

  predicate InPart(part: Part, op: Op) {
    match part
    case All => true
    case Stores => !op.Patch?
    case Edits => op.Patch?
  }

  /** What the selected operations do to storage `s`, in order; none when one of them fails. */
  function Trace(src: Sources, storageSize: nat, s: StorageType, part: Part, ops: seq<Op>): Option<seq<Action>> {
    if |ops| == 0 then Some([])
    else
      var init, op := ops[..|ops| - 1], ops[|ops| - 1];
      var before := Trace(src, storageSize, s, part, init);
      var more := if Current(init) == Some(s) && InPart(part, op) then Actions(src, storageSize, op) else Some([]);
      if before.None? || more.None? then None else Some(before.value + more.value)
  }

  // ----- Patches after everything else

  function Filtered(t: seq<Action>, edits: bool): seq<Action> {
    if |t| == 0 then []
    else Filtered(t[..|t| - 1], edits) + if t[|t| - 1].Edit? == edits then [t[|t| - 1]] else []
  }

  /** No write or erase follows a patch. */
  predicate PatchesLast(t: seq<Action>) {
    forall i, j :: 0 <= i < j < |t| ==> t[i].Edit? ==> t[j].Edit?
  }

  predicate Arranged(t: seq<Action>) { t == Filtered(t, false) + Filtered(t, true) }

  /** Sorting patches behind everything else changes a trace exactly when something followed a patch. */
  lemma {:induction false} ArrangedIff(t: seq<Action>)
    ensures t == Filtered(t, false) + Filtered(t, true) <==> PatchesLast(t)
  {
    hide PatchesLast, Filtered;
    if |t| > 0 {
      var init, a := t[..|t| - 1], t[|t| - 1];
      assert init + [a] == t;
      ArrangedIff(init);
      if a.Edit? { ArrangedEdit(init, a); } else { ArrangedStore(init, a); }
    } else {
      ArrangedEmpty();
    }
  }

  lemma ArrangedEmpty()
    ensures Arranged([]) && PatchesLast([])
  {
  }

  lemma ArrangedEdit(init: seq<Action>, a: Action)
    requires a.Edit? && (Arranged(init) <==> PatchesLast(init))
    ensures Arranged(init + [a]) <==> PatchesLast(init + [a])
  {
    hide PatchesLast, Filtered;
    var x, y := Filtered(init, false), Filtered(init, true);
    FilteredStep(init, a, false);
    FilteredStep(init, a, true);
    assert x + (y + [a]) == (x + y) + [a];
    EditLast(init, a, x + y);
  }

  lemma ArrangedStore(init: seq<Action>, a: Action)
    requires !a.Edit? && (Arranged(init) <==> PatchesLast(init))
    ensures Arranged(init + [a]) <==> PatchesLast(init + [a])
  {
    hide PatchesLast, Filtered;
    FilteredStep(init, a, false);
    FilteredStep(init, a, true);
    FilteredKinds(init, true);
    StoreLast(init, a, Filtered(init, false), Filtered(init, true));
  }

  lemma FilteredStep(init: seq<Action>, a: Action, edits: bool)
    ensures Filtered(init + [a], edits) == if a.Edit? == edits then Filtered(init, edits) + [a]
            else Filtered(init, edits)
  {
    assert (init + [a])[..|init|] == init;
  }

  lemma EditLast(init: seq<Action>, a: Action, sorted: seq<Action>)
    requires a.Edit?
    ensures PatchesLast(init + [a]) <==> PatchesLast(init)
    ensures init + [a] == sorted + [a] <==> init == sorted
  {
    assert (init + [a])[..|init|] == init && (sorted + [a])[..|sorted|] == sorted;
    if PatchesLast(init + [a]) {
      assert forall i :: 0 <= i < |init| ==> (init + [a])[i] == init[i];
    }
  }

  lemma StoreLast(init: seq<Action>, a: Action, x: seq<Action>, y: seq<Action>)
    requires !a.Edit? && forall i :: 0 <= i < |y| ==> y[i].Edit?
    requires init == x + y <==> PatchesLast(init)
    requires y == [] <==> forall i :: 0 <= i < |init| ==> !init[i].Edit?
    ensures init + [a] == x + [a] + y <==> PatchesLast(init + [a])
  {
    if y == [] {
      assert PatchesLast(init);
      assert x + [a] + y == init + [a];
      assert PatchesLast(init + [a]);
    } else {
      EndsDiffer(init, a, x, y);
      var i :| 0 <= i < |init| && init[i].Edit?;
      assert (init + [a])[i].Edit? && !(init + [a])[|init|].Edit?;
    }
  }

  lemma EndsDiffer(init: seq<Action>, a: Action, x: seq<Action>, y: seq<Action>)
    requires !a.Edit? && |y| > 0 && y[|y| - 1].Edit?
    ensures init + [a] != x + [a] + y
  {
    var l, r := init + [a], x + [a] + y;
    assert l[|l| - 1] == a && r[|r| - 1] == y[|y| - 1];
  }

  lemma {:induction false} FilteredKinds(t: seq<Action>, edits: bool)
    ensures forall i :: 0 <= i < |Filtered(t, edits)| ==> Filtered(t, edits)[i].Edit? == edits
    ensures Filtered(t, edits) == [] <==> forall i :: 0 <= i < |t| ==> t[i].Edit? != edits
  {
    if |t| > 0 { FilteredKinds(t[..|t| - 1], edits); }
  }

  lemma {:induction false} FilteredJoins(a: seq<Action>, b: seq<Action>, edits: bool)
    ensures Filtered(a + b, edits) == Filtered(a, edits) + Filtered(b, edits)
  {
    if |b| == 0 {
      assert a + b == a;
    } else {
      assert (a + b)[..|a + b| - 1] == a + b[..|b| - 1];
      FilteredJoins(a, b[..|b| - 1], edits);
    }
  }

  lemma ActionKinds(src: Sources, storageSize: nat, op: Op)
    requires Actions(src, storageSize, op).Some?
    ensures forall i :: 0 <= i < |Actions(src, storageSize, op).value| ==>
              Actions(src, storageSize, op).value[i].Edit? == op.Patch?
  {
    hide ProgramData, Text;
  }

  lemma {:induction false} FilteredAll(t: seq<Action>, kind: bool)
    requires forall i :: 0 <= i < |t| ==> t[i].Edit? == kind
    ensures Filtered(t, kind) == t && Filtered(t, !kind) == []
  {
    if |t| > 0 { FilteredAll(t[..|t| - 1], kind); }
  }

  /** The trace of a part is the part of the trace. */
  lemma {:induction false} PartsOfTrace(src: Sources, storageSize: nat, s: StorageType, ops: seq<Op>)
    ensures var all := Trace(src, storageSize, s, All, ops);
            var stores, edits := Trace(src, storageSize, s, Stores, ops), Trace(src, storageSize, s, Edits, ops);
            && (all.Some? <==> stores.Some? && edits.Some?)
            && (all.Some? ==> stores.value == Filtered(all.value, false) && edits.value == Filtered(all.value, true))
  {
    hide Actions, Current, Filtered;
    if |ops| > 0 {
      var init, op := ops[..|ops| - 1], ops[|ops| - 1];
      PartsOfTrace(src, storageSize, s, init);
      var before, more := Trace(src, storageSize, s, All, init), Actions(src, storageSize, op);
      if before.Some? && Current(init) == Some(s) && more.Some? {
        ActionKinds(src, storageSize, op);
        OnePart(before.value, more.value, op.Patch?);
      } else if before.Some? {
        NoPart(before.value);
      }
    } else {
      assert Filtered([], false) == [] && Filtered([], true) == [] by { NothingFiltered(); }
    }
  }

  lemma NothingFiltered()
    ensures Filtered([], false) == [] && Filtered([], true) == []
  {
  }

  lemma NoPart(t: seq<Action>)
    ensures t + [] == t && Filtered(t, false) + [] == Filtered(t, false) && Filtered(t, true) + [] == Filtered(t, true)
  {
  }

  lemma OnePart(before: seq<Action>, more: seq<Action>, kind: bool)
    requires forall i :: 0 <= i < |more| ==> more[i].Edit? == kind
    ensures Filtered(before + more, kind) == Filtered(before, kind) + more
    ensures Filtered(before + more, !kind) == Filtered(before, !kind) + []
  {
    FilteredAll(more, kind);
    FilteredJoins(before, more, kind);
    FilteredJoins(before, more, !kind);
  }

  // ----- The commands on the wire

  /** The command the host sends for an operation, its sizes being those of the action. */
  function Sent(op: Op, a: Action, slot: Option<nat>): Framing.Node
    requires !op.Configure? && (op.Program? ==> a.Write?) && (op.Erase? ==> a.Wipe?)
  {
    match op
    case Program(p) => Commands.ProgramNode(p, a.sectorSize, a.num, slot)
    case Erase(e) => Commands.EraseNode(e, a.sectorSize, slot)
    case Patch(q) => Commands.PatchNode(q, Text(DISK), slot)
  }

  /** What a device reads in a command, `data` coming behind it: each value is found under its own attribute. */
  function ReadAction(node: Framing.Node, data: bytes): Option<Action> {
    var ss, partition := ReadUint(node, "SECTOR_SIZE_IN_BYTES"), ReadInt(node, "physical_partition_number");
    var num, start := ReadUint(node, "num_partition_sectors"), ReadText(node, "start_sector");
    var pages, last := ReadUint(node, "PAGES_PER_BLOCK"), ReadUint(node, "last_sector");
    var offset, size := ReadUint(node, "byte_offset"), ReadUint(node, "size_in_bytes");
    if ss.None? || partition.None? then None
    else if node.name == "program" && num.Some? then
      var nand := if pages.Some? && last.Some? then Some(Geometry(pages.value, last.value, ReadText(node, "label")))
                  else None;
      Some(Write(partition.value, ss.value, start, num.value, nand, data))
    else if node.name == "erase" then
      Some(Wipe(partition.value, ss.value, start, if num.Some? then num.value else 0, pages))
    else if node.name == "patch" && offset.Some? && size.Some? then
      Some(Edit(partition.value, ss.value, offset.value, size.value, start, ReadText(node, "value")))
    else None
  }

  /**
   * An action as its command shows it: texts are printed, missing ones as well, and cut; only an erase of the
   * whole partition says nothing of a start.
   */
  function Seen(a: Action): Action {
    match a
    case Write(_, _, start, _, nand, _) =>
      var shown := if nand.None? then None
                   else Some(nand.value.(partLabel := if nand.value.partLabel.None? then None
                                                      else Some(Cut(nand.value.partLabel.value))));
      a.(start := Some(Shown(start)), nand := shown)
    case Wipe(_, _, start, num, _) => a.(start := if num == 0 then None else Some(Shown(start)))
    case Edit(_, _, _, _, start, value) => a.(start := Some(Shown(start)), value := Some(Shown(value)))
  }

  function DataOf(a: Action): bytes { if a.Write? then a.data else [] }

  /** Nothing is lost on an action with start sector and value, none of its texts being too long. */
  lemma SeenWhole(a: Action)
    ensures Seen(a) == a <==>
            && (if a.Wipe? && a.num == 0 then a.start.None? else a.start.Some? && |a.start.value| <= 127)
            && (a.Edit? ==> a.value.Some? && |a.value.value| <= 127)
            && (a.Write? && a.nand.Some? && a.nand.value.partLabel.Some? ==> |a.nand.value.partLabel.value| <= 127)
  {
  }

  lemma OneAction(src: Sources, storageSize: nat, op: Op)
    requires Actions(src, storageSize, op).Some? && Actions(src, storageSize, op).value != []
    ensures |Actions(src, storageSize, op).value| == 1
    ensures !op.Configure? && op.Program? == Actions(src, storageSize, op).value[0].Write?
    ensures op.Erase? == Actions(src, storageSize, op).value[0].Wipe?
  {
    hide ProgramData, Text;
  }

  lemma ProgramSeen(src: Sources, storageSize: nat, p: ProgramOp, slot: Option<nat>)
    requires ProgramActions(src, storageSize, p).Some? && ProgramActions(src, storageSize, p).value != []
    requires InRange(Program(p)) && IsUint(storageSize) && (slot.Some? ==> IsUint(slot.value))
    ensures var a := ProgramActions(src, storageSize, p).value[0];
            var node := Commands.ProgramNode(p, a.sectorSize, a.num, slot);
            && ReadAction(node, a.data) == Some(Seen(a))
            && ReadUint(node, "slot") == slot
            && ReadText(node, "filename") == Some(Cut(p.filename.value))
  {
    hide ProgramData, Text, Commands.ProgramNode, ReadText, Shown, Cut, Strtoul;
    var a := ProgramActions(src, storageSize, p).value[0];
    ProgramAttributes(p, a.sectorSize, a.num, slot);
  }

  /**
   * What a device reads in the command for an operation is the operation's action, the slot it is for and the
   * file it names.
   */
  lemma CommandSent(src: Sources, storageSize: nat, op: Op, slot: Option<nat>)
    requires Actions(src, storageSize, op).Some? && Actions(src, storageSize, op).value != []
    requires InRange(op) && IsUint(storageSize) && (slot.Some? ==> IsUint(slot.value))
    ensures |Actions(src, storageSize, op).value| == 1
    ensures var a := Actions(src, storageSize, op).value[0];
            && ReadAction(Sent(op, a, slot), DataOf(a)) == Some(Seen(a))
            && ReadUint(Sent(op, a, slot), "slot") == slot
            && (op.Program? ==> ReadText(Sent(op, a, slot), "filename") == Some(Cut(op.p.filename.value)))
            && (op.Patch? ==> ReadText(Sent(op, a, slot), "filename") == Some(Text(DISK)))
  {
    hide ProgramActions, Text, Commands.ProgramNode, Commands.EraseNode, Commands.PatchNode, ReadText, Shown, Cut;
    hide Strtoul;
    OneAction(src, storageSize, op);
    var a := Actions(src, storageSize, op).value[0];
    match op {
      case Program(p) => ProgramSeen(src, storageSize, p, slot);
      case Erase(e) => EraseAttributes(e, a.sectorSize, slot);
      case Patch(q) =>
        PatchAttributes(q, Text(DISK), slot);
        CutNothing();
    }
  }

  lemma CutNothing()
    ensures Cut(Text(DISK)) == Text(DISK)
  {
  }

  // ----- The flash contents

  /** How the programmer reads start sectors and carries out patches. */
  datatype Programmer = Programmer(resolve: bytes -> nat, patch: (Flash, Action) -> Flash)

  function StartOf(start: Option<bytes>): bytes { if start.Some? then start.value else NULL_TEXT }

  /** Erased sectors have no contents. */
  function WipeSectors(flash: Flash, p: int, start: nat, num: nat): Flash {
    if num == 0 then map a | a in flash && a.partition != p :: flash[a]
    else map a | a in flash && !(a.partition == p && start <= a.sector < start + num) :: flash[a]
  }

  /** Exactly the sectors of the range, or of the partition when there is no range, are gone; the others stay. */
  lemma WipedExactly(flash: Flash, p: int, start: nat, num: nat, a: Addr)
    ensures a in WipeSectors(flash, p, start, num)
        <==> a in flash && (a.partition != p || (num > 0 && (a.sector < start || a.sector >= start + num)))
    ensures a in WipeSectors(flash, p, start, num) ==> WipeSectors(flash, p, start, num)[a] == flash[a]
  {
  }

  function PerformOne(flash: Flash, pr: Programmer, a: Action): Flash {
    match a
    case Write(p, ss, start, _, _, data) =>
      if ss == 0 then flash else WriteSectors(flash, p, pr.resolve(StartOf(start)), ss, data)
    case Wipe(p, _, start, num, _) => WipeSectors(flash, p, pr.resolve(StartOf(start)), num)
    case Edit(_, _, _, _, _, _) => pr.patch(flash, a)
  }

  /** Flash after a trace. */
  function Perform(flash: Flash, pr: Programmer, t: seq<Action>): Flash {
    if |t| == 0 then flash else PerformOne(Perform(flash, pr, t[..|t| - 1]), pr, t[|t| - 1])
  }

  /** The storages of a device, and the one that is configured. */
  datatype World = World(flashes: map<StorageType, Flash>, current: Option<StorageType>)

  function FlashOf(w: World, s: StorageType): Flash { if s in w.flashes then w.flashes[s] else map[] }

  function Put(w: World, f: Flash): World
    requires w.current.Some?
  {
    w.(flashes := w.flashes[w.current.value := f])
  }

  /** One operation carried out; none when it fails. */
  function Step(w: World, pr: Programmer, src: Sources, storageSize: nat, op: Op): Option<World> {
    if op.Configure? then if op.storage == Unknown then None else Some(w.(current := Some(op.storage)))
    else if w.current.None? then None
    else
      var f := FlashOf(w, w.current.value);
      match op
      case Program(p) =>
        var files := if p.fromZip then src.archive else src.files;
        if p.filename.None? then Some(w)
        else if Effective(p.sectorSize, storageSize) == 0 then None
        else
          var g := ProgramEffect(f, pr.resolve, files, p.(sectorSize := Effective(p.sectorSize, storageSize)));
          if g.None? then None else Some(Put(w, g.value))
      case Erase(e) => Some(Put(w, WipeSectors(f, e.partition, pr.resolve(StartOf(e.startSector)), e.numSectors)))
      case Patch(q) =>
        if q.filename != Some(Text(DISK)) then Some(w)
        else Some(Put(w, pr.patch(f,
                                  Edit(q.partition, q.sectorSize, q.byteOffset, q.sizeInBytes, q.startSector,
                                       q.value))))
  }

  function Run(w: World, pr: Programmer, src: Sources, storageSize: nat, ops: seq<Op>): Option<World> {
    if |ops| == 0 then Some(w)
    else
      match Run(w, pr, src, storageSize, ops[..|ops| - 1])
      case None => None
      case Some(w') => Step(w', pr, src, storageSize, ops[|ops| - 1])
  }

  lemma ProgramStep(w: World, pr: Programmer, src: Sources, storageSize: nat, p: ProgramOp)
    requires w.current.Some?
    ensures var actions := ProgramActions(src, storageSize, p);
            && (Step(w, pr, src, storageSize, Program(p)).Some? <==> actions.Some?)
            && (actions.Some? ==>
                  var w' := Step(w, pr, src, storageSize, Program(p)).value;
                  var f := FlashOf(w, w.current.value);
                  w' == if actions.value == [] then w else Put(w, PerformOne(f, pr, actions.value[0])))
  {
    hide ProgramData, WriteSectors, SectorsOf;
  }

  lemma OtherStep(w: World, pr: Programmer, src: Sources, storageSize: nat, op: Op)
    requires w.current.Some? && (op.Erase? || op.Patch?)
    ensures Step(w, pr, src, storageSize, op).Some? && Actions(src, storageSize, op).Some?
    ensures var w', actions := Step(w, pr, src, storageSize, op).value, Actions(src, storageSize, op).value;
            w' == if actions == [] then w else Put(w, PerformOne(FlashOf(w, w.current.value), pr, actions[0]))
  {
    hide WipeSectors, Text;
  }

  lemma PerformSingle(flash: Flash, pr: Programmer, a: Action)
    ensures Perform(flash, pr, [a]) == PerformOne(flash, pr, a) && Perform(flash, pr, []) == flash
  {
    hide PerformOne;
    assert [a][..0] == [];
  }

  lemma StepIsActions(w: World, pr: Programmer, src: Sources, storageSize: nat, op: Op)
    requires w.current.Some? && !op.Configure?
    ensures var actions := Actions(src, storageSize, op);
            && (Step(w, pr, src, storageSize, op).Some? <==> actions.Some?)
            && (actions.Some? ==>
                  var w' := Step(w, pr, src, storageSize, op).value;
                  && w'.current == w.current
                  && (forall s :: s != w.current.value ==> FlashOf(w', s) == FlashOf(w, s))
                  && FlashOf(w', w.current.value) == Perform(FlashOf(w, w.current.value), pr, actions.value))
  {
    hide ProgramActions, Text, PerformOne, WipeSectors;
    var actions := Actions(src, storageSize, op);
    if op.Program? {
      hide Step;
      ProgramStep(w, pr, src, storageSize, op.p);
    } else {
      OtherStep(w, pr, src, storageSize, op);
    }
    PerformNone(FlashOf(w, w.current.value), pr);
    if actions.Some? && actions.value != [] {
      OneAction(src, storageSize, op);
      PerformSingle(FlashOf(w, w.current.value), pr, actions.value[0]);
      assert actions.value == [actions.value[0]];
    }
  }

  lemma {:induction false} PerformJoins(flash: Flash, pr: Programmer, a: seq<Action>, b: seq<Action>)
    ensures Perform(flash, pr, a + b) == Perform(Perform(flash, pr, a), pr, b)
  {
    hide PerformOne;
    if |b| == 0 {
      assert a + b == a;
    } else {
      assert (a + b)[..|a + b| - 1] == a + b[..|b| - 1];
      PerformJoins(flash, pr, a, b[..|b| - 1]);
    }
  }

  /** Operations that are preceded by the configuration of a storage there is. */
  predicate Configured(ops: seq<Op>) {
    forall i :: 0 <= i < |ops| ==> ConfiguredAt(ops, i)
  }

  predicate ConfiguredAt(ops: seq<Op>, i: nat)
    requires i < |ops|
  {
    if ops[i].Configure? then ops[i].storage != Unknown else Current(ops[..i]).Some?
  }

  ghost predicate Traced(w: World, w': World, pr: Programmer, src: Sources, storageSize: nat, ops: seq<Op>,
                         s: StorageType) {
    var t := Trace(src, storageSize, s, All, ops);
    t.Some? && FlashOf(w', s) == Perform(FlashOf(w, s), pr, t.value)
  }

  ghost predicate AllTraced(w: World, w': World, pr: Programmer, src: Sources, storageSize: nat, ops: seq<Op>) {
    forall s :: Traced(w, w', pr, src, storageSize, ops, s)
  }

  ghost predicate NoFailure(src: Sources, storageSize: nat, ops: seq<Op>) {
    forall s :: Trace(src, storageSize, s, All, ops).Some?
  }

  /** A run succeeds exactly when no trace has a failure, and it leaves every storage as its trace makes it. */
  lemma {:induction false} RunIsTraces(w: World, pr: Programmer, src: Sources, storageSize: nat, ops: seq<Op>)
    requires w.current.None? && Configured(ops)
    ensures Run(w, pr, src, storageSize, ops).Some? <==> NoFailure(src, storageSize, ops)
    ensures Run(w, pr, src, storageSize, ops).Some? ==>
              && Run(w, pr, src, storageSize, ops).value.current == Current(ops)
              && AllTraced(w, Run(w, pr, src, storageSize, ops).value, pr, src, storageSize, ops)
  {
    hide Actions, Step, Perform, PerformOne;
    if |ops| > 0 {
      var init, op := ops[..|ops| - 1], ops[|ops| - 1];
      ConfiguredInit(ops);
      RunIsTraces(w, pr, src, storageSize, init);
      var before := Run(w, pr, src, storageSize, init);
      if before.Some? {
        RunOneMore(w, before.value, pr, src, storageSize, ops);
      } else {
        var s :| Trace(src, storageSize, s, All, init).None?;
        assert Trace(src, storageSize, s, All, ops).None?;
      }
    } else {
      forall s ensures Traced(w, w, pr, src, storageSize, ops, s) {
        assert Perform(FlashOf(w, s), pr, []) == FlashOf(w, s) by { PerformNone(FlashOf(w, s), pr); }
      }
    }
  }

  lemma PerformNone(flash: Flash, pr: Programmer)
    ensures Perform(flash, pr, []) == flash
  {
  }

  lemma ConfiguredInit(ops: seq<Op>)
    requires |ops| > 0 && Configured(ops)
    ensures Configured(ops[..|ops| - 1]) && ConfiguredAt(ops, |ops| - 1)
  {
    hide Current;
    var init := ops[..|ops| - 1];
    forall i | 0 <= i < |init| ensures ConfiguredAt(init, i) {
      assert ConfiguredAt(ops, i) && init[..i] == ops[..i];
    }
  }

  lemma RunOneMore(w: World, w1: World, pr: Programmer, src: Sources, storageSize: nat, ops: seq<Op>)
    requires |ops| > 0 && ConfiguredAt(ops, |ops| - 1)
    requires Run(w, pr, src, storageSize, ops[..|ops| - 1]) == Some(w1) && w1.current == Current(ops[..|ops| - 1])
    requires AllTraced(w, w1, pr, src, storageSize, ops[..|ops| - 1])
    ensures Run(w, pr, src, storageSize, ops).Some? <==> NoFailure(src, storageSize, ops)
    ensures Run(w, pr, src, storageSize, ops).Some? ==>
              && Run(w, pr, src, storageSize, ops).value.current == Current(ops)
              && AllTraced(w, Run(w, pr, src, storageSize, ops).value, pr, src, storageSize, ops)
  {
    hide Actions, Perform, PerformOne;
    var init, op := ops[..|ops| - 1], ops[|ops| - 1];
    if op.Configure? {
      ConfigureStep(w, w1, pr, src, storageSize, ops);
    } else {
      ActionStep(w, w1, pr, src, storageSize, ops);
    }
  }

  lemma ConfigureStep(w: World, w1: World, pr: Programmer, src: Sources, storageSize: nat, ops: seq<Op>)
    requires |ops| > 0 && ConfiguredAt(ops, |ops| - 1) && ops[|ops| - 1].Configure?
    requires Run(w, pr, src, storageSize, ops[..|ops| - 1]) == Some(w1) && w1.current == Current(ops[..|ops| - 1])
    requires AllTraced(w, w1, pr, src, storageSize, ops[..|ops| - 1])
    ensures Run(w, pr, src, storageSize, ops).Some? && NoFailure(src, storageSize, ops)
    ensures Run(w, pr, src, storageSize, ops).value.current == Current(ops)
    ensures AllTraced(w, Run(w, pr, src, storageSize, ops).value, pr, src, storageSize, ops)
  {
    hide Perform;
    var w2 := Run(w, pr, src, storageSize, ops).value;
    forall s ensures Traced(w, w2, pr, src, storageSize, ops, s) {
      assert Traced(w, w1, pr, src, storageSize, ops[..|ops| - 1], s);
      assert Actions(src, storageSize, ops[|ops| - 1]) == Some([]);
      var t := Trace(src, storageSize, s, All, ops[..|ops| - 1]).value;
      assert t + [] == t;
    }
    forall s ensures Trace(src, storageSize, s, All, ops).Some? {
      assert Traced(w, w2, pr, src, storageSize, ops, s);
    }
  }

  lemma ActionStep(w: World, w1: World, pr: Programmer, src: Sources, storageSize: nat, ops: seq<Op>)
    requires |ops| > 0 && ConfiguredAt(ops, |ops| - 1) && !ops[|ops| - 1].Configure?
    requires Run(w, pr, src, storageSize, ops[..|ops| - 1]) == Some(w1) && w1.current == Current(ops[..|ops| - 1])
    requires AllTraced(w, w1, pr, src, storageSize, ops[..|ops| - 1])
    ensures Run(w, pr, src, storageSize, ops).Some? <==> NoFailure(src, storageSize, ops)
    ensures Run(w, pr, src, storageSize, ops).Some? ==>
              && Run(w, pr, src, storageSize, ops).value.current == Current(ops)
              && AllTraced(w, Run(w, pr, src, storageSize, ops).value, pr, src, storageSize, ops)
  {
    hide Actions, Perform, Step;
    var init, op := ops[..|ops| - 1], ops[|ops| - 1];
    var c := w1.current.value;
    StepIsActions(w1, pr, src, storageSize, op);
    var actions := Actions(src, storageSize, op);
    forall s ensures Trace(src, storageSize, s, All, ops).Some? <==> s != c || actions.Some? {
      assert Traced(w, w1, pr, src, storageSize, init, s);
    }
    if actions.Some? {
      var w2 := Run(w, pr, src, storageSize, ops).value;
      forall s ensures Traced(w, w2, pr, src, storageSize, ops, s) {
        assert Traced(w, w1, pr, src, storageSize, init, s);
        var t := Trace(src, storageSize, s, All, init).value;
        assert t + [] == t;
        if s == c { PerformJoins(FlashOf(w, s), pr, t, actions.value); }
      }
    } else {
      assert Trace(src, storageSize, c, All, ops).None?;
    }
  }
}

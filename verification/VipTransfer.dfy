/** The host's side of VIP: which table to send before which frame. */
module VipTransfer {
  import opened Bytes
  import opened VipTables
  import opened VipReceiver

  datatype VipState = VipDisabled | VipInit | VipSendNextTable | VipSendData

  datatype Transfer = Transfer(state: VipState, chainedCur: nat, framesSent: nat, framesLeft: nat)

  const START := Transfer(VipInit, 0, 0, 0)

  /** The tables the host was given. */
  datatype Tables = Tables(signed: bytes, chained: seq<bytes>)

  datatype Sending = NoTable | SignedTable | ChainedTableNo(i: nat) | Missing

  /** Which table goes out before the next frame. */
  function TableDue(t: Transfer, chainedNum: nat): Sending {
    if t.state.VipInit? then SignedTable
    else if t.state.VipSendNextTable? then
      if t.chainedCur >= chainedNum then Missing else ChainedTableNo(t.chainedCur)
    else NoTable
  }

  /** The transfer state once the due table is out and the frame has been counted. */
  function AfterFrame(t: Transfer, chainedNum: nat): Transfer {
    if t.state.VipDisabled? then t
    else
      var t := match TableDue(t, chainedNum)
               case SignedTable => Transfer(VipSendData, t.chainedCur, 0, 53)
               case ChainedTableNo(i) => Transfer(VipSendData, i + 1, 0, 255)
               case NoTable => t
               case Missing => t;
      var sent := t.framesSent + 1;
      t.(framesSent := sent, state := if sent >= t.framesLeft then VipSendNextTable else t.state)
  }

  /** Host and device together; `ok` until the host lacks a table. */
  datatype Session = Session(t: Transfer, r: Receiver, ok: bool)

  function Receive(r: Receiver, due: Sending, tables: Tables): Receiver
    requires |r.hashes| <= MAX_HASHES
    requires due.ChainedTableNo? ==> due.i < |tables.chained|
  {
    match due
    case SignedTable => RecvTable(r, tables.signed, true)
    case ChainedTableNo(i) => RecvTable(r, tables.chained[i], false)
    case NoTable => r
    case Missing => r
  }

  /** One frame: the table that is due, if any, and then the frame itself. */
  function SendFrame(s: Session, tables: Tables, frame: bytes): (s': Session)
    requires |s.r.hashes| <= MAX_HASHES
    ensures |s'.r.hashes| <= MAX_HASHES
  {
    var due := TableDue(s.t, |tables.chained|);
    if !s.ok then s
    else if due.Missing? then s.(ok := false)
    else Session(AfterFrame(s.t, |tables.chained|), CheckChunk(Receive(s.r, due, tables), frame), true)
  }

  /** The session after all frames, from the start. */
  function Run(tables: Tables, frames: seq<bytes>): (s: Session)
    ensures |s.r.hashes| <= MAX_HASHES
  {
    if |frames| == 0 then Session(START, EMPTY, true)
    else SendFrame(Run(tables, frames[..|frames| - 1]), tables, frames[|frames| - 1])
  }

  // ----- The transfer schedule, for any tables

  /** The transfer state after `n` frames, in closed form. */
  function TransferAt(n: nat): Transfer {
    if n == 0 then START
    else
      var c := ChainedCount(n);
      var sent := if c == 0 then n else n - TableStart(c - 1);
      var capacity := if c == 0 then 53 else 255;
      Transfer(if sent >= capacity then VipSendNextTable else VipSendData, c, sent, capacity)
  }

  /** How many frames `chainedNum` chained tables allow. */
  function Capacity(chainedNum: nat): nat { 53 + 255 * chainedNum }

  lemma ScheduleStep(n: nat, chainedNum: nat)
    requires n < Capacity(chainedNum)
    ensures !TableDue(TransferAt(n), chainedNum).Missing?
    ensures AfterFrame(TransferAt(n), chainedNum) == TransferAt(n + 1)
    ensures TableDue(TransferAt(n), chainedNum)
         == if n == 0 then SignedTable
            else if ChainedCount(n) < ChainedCount(n + 1) then ChainedTableNo(ChainedCount(n))
            else NoTable
    ensures ChainedCount(n + 1) <= chainedNum
    ensures ChainedCount(n) <= ChainedCount(n + 1) <= ChainedCount(n) + 1
  {
    TableBounds(n, ChainedCount(n));
    TableBounds(n + 1, ChainedCount(n));
  }

  lemma ScheduleEnd(chainedNum: nat)
    ensures TableDue(TransferAt(Capacity(chainedNum)), chainedNum).Missing?
  {
    assert ChainedCount(Capacity(chainedNum)) == chainedNum;
  }

  /** A run lacks no table exactly while the frames fit the tables. */
  lemma {:induction false} RunFits(tables: Tables, frames: seq<bytes>)
    ensures Run(tables, frames).ok <==> |frames| <= Capacity(|tables.chained|)
    ensures Run(tables, frames).ok ==> Run(tables, frames).t == TransferAt(|frames|)
    ensures !Run(tables, frames).ok ==> Run(tables, frames).t == TransferAt(Capacity(|tables.chained|))
  {
    hide Receive, CheckChunk, TransferAt, TableDue, AfterFrame;
    if |frames| > 0 {
      var n := |frames| - 1;
      RunFits(tables, frames[..n]);
      if n < Capacity(|tables.chained|) {
        ScheduleStep(n, |tables.chained|);
      } else if n == Capacity(|tables.chained|) {
        ScheduleEnd(|tables.chained|);
      }
    } else {
      TransferAtStart();
    }
  }

  lemma TransferAtStart()
    ensures TransferAt(0) == START
  {
  }
}

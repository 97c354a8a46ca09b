/**
 * Reading from a device: pushed-back bytes first, then the transport, which is either a
 * stream that delivers its bytes in arbitrary fragments or the simulator's response queue.
 */
module Transport {
  import opened Bytes
  import opened Options
  import opened Framing
  import opened SimDocuments

  /** What one transport read runs into; `expired` says that the caller's deadline has passed. */
  datatype Event = Data(payload: bytes) | Silence(zlp: bool, expired: bool) | Lost(gone: bool)

  datatype Phase = Xml | RawIn | RawOut

  datatype Link =
    | Stream(script: seq<Event>)
    | Simulated(queue: seq<bytes>, phase: Phase, remaining: nat, closed: bool)

  /** The bytes pushed back, and the transport. */
  datatype Reader = Reader(pending: bytes, link: Link)

  datatype Delivery = Got(data: bytes) | Quiet(zlp: bool, expired: bool) | Failed(code: int)

  ghost predicate Live(link: Link) {
    match link
    case Stream(script) => forall i :: 0 <= i < |script| && script[i].Data? ==> |script[i].payload| > 0
    case Simulated(queue, _, _, _) => forall i :: 0 <= i < |queue| ==> |queue[i]| > 0
  }

  function ScriptSize(script: seq<Event>): nat {
    if |script| == 0 then 0
    else (if script[0].Data? then |script[0].payload| else 0) + 1 + ScriptSize(script[1..])
  }

  function QueueSize(queue: seq<bytes>): nat {
    if |queue| == 0 then 0 else |queue[0]| + 1 + QueueSize(queue[1..])
  }

  /** How much the transport can still say by itself. */
  function LinkSize(link: Link): nat {
    match link
    case Stream(script) => ScriptSize(script)
    case Simulated(queue, phase, remaining, _) =>
      QueueSize(queue) + if phase.RawOut? then remaining + |SIM_ACK| + 2 else 0
  }

  /** One transport read of at most `len` bytes. */
  function LinkRead(link: Link, len: nat): (r: (Delivery, Link))
    requires len > 0
  {
    match link
    case Stream(script) =>
      if |script| == 0 then (Quiet(false, true), link)
      else (match script[0]
            case Silence(zlp, expired) => (Quiet(zlp, expired), Stream(script[1..]))
            case Lost(gone) => (Failed(if gone then ENODEV else EIO), Stream(script[1..]))
            case Data(p) =>
              if |p| <= len then (Got(p), Stream(script[1..]))
              else (Got(p[..len]), Stream([Data(p[len..])] + script[1..])))
    case Simulated(queue, phase, remaining, closed) =>
      if |queue| > 0 then
        if |queue[0]| <= len then (Got(queue[0]), link.(queue := queue[1..]))
        else (Got(queue[0][..len]), link.(queue := [queue[0][len..]] + queue[1..]))
      else if phase.RawOut? then
        var n := Min(len, remaining);
        (if n == 0 then Quiet(true, false) else Got(Zeros(n)),
         if remaining == n then Simulated([SIM_ACK], Xml, 0, closed) else link.(remaining := remaining - n))
      else if closed then (Failed(EIO), link)
      else (Quiet(false, true), link)
  }

  lemma LinkReadShrinks(link: Link, len: nat)
    requires len > 0 && Live(link)
    ensures var (d, link') := LinkRead(link, len);
            && Live(link')
            && (d.Got? ==> 0 < |d.data| <= len && LinkSize(link') < LinkSize(link))
            && (d.Quiet? && (d.zlp || !d.expired) ==> LinkSize(link') < LinkSize(link))
            && (d.Failed? ==> d.code < 0)
  {
    assert QueueSize([SIM_ACK]) == |SIM_ACK| + 1;
    if link.Stream? && |link.script| > 0 && link.script[0].Data? && |link.script[0].payload| > len {
      assert ([Data(link.script[0].payload[len..])] + link.script[1..])[1..] == link.script[1..];
    }
    if link.Simulated? && |link.queue| > 0 && |link.queue[0]| > len {
      assert ([link.queue[0][len..]] + link.queue[1..])[1..] == link.queue[1..];
    }
  }

  function ReaderSize(r: Reader): nat { |r.pending| + LinkSize(r.link) }

  /** `qdl_read`: the pushed-back bytes go first, and alone. */
  function Read(r: Reader, len: nat): (Delivery, Reader)
    requires len > 0
  {
    if r.pending != [] then
      var n := Min(|r.pending|, len);
      (Got(r.pending[..n]), r.(pending := r.pending[n..]))
    else
      var (d, link') := LinkRead(r.link, len);
      (d, r.(link := link'))
  }

  lemma ReadShrinks(r: Reader, len: nat)
    requires len > 0 && Live(r.link)
    ensures var (d, r') := Read(r, len);
            && Live(r'.link)
            && (d.Got? ==> 0 < |d.data| <= len && ReaderSize(r') + 1 <= ReaderSize(r))
            && (d.Got? && r.pending == [] ==> LinkSize(r'.link) < LinkSize(r.link))
            && (d.Quiet? && (d.zlp || !d.expired) ==> ReaderSize(r') < ReaderSize(r))
            && (d.Failed? ==> d.code < 0)
            && (|r.pending| <= len ==> r'.pending == [])
  {
    hide LinkRead, LinkSize, Live;
    LinkReadShrinks(r.link, len);
  }

  const BUFFER := 4095

  /** The result of waiting for a response: its code or an error, what was heard, and the reader. */
  datatype Outcome = Outcome(ret: int, heard: Heard, reader: Reader)

  /** `firehose_read`: messages are consumed up to a silence after a response, or up to raw mode. */
  function Await(codec: Codec, parser: Parser, r: Reader, h: Heard): Outcome
    requires Live(r.link)
    decreases LinkSize(r.link), |r.pending|
  {
    hide LinkRead, LinkSize, Live;
    LinkReadShrinks(r.link, BUFFER);
    var (d, r') := Read(r, BUFFER);
    match d
    case Failed(code) => Outcome(if h.resp < 0 then code else h.resp, h, r')
    case Quiet(zlp, expired) =>
      if !zlp && h.resp >= 0 then Outcome(h.resp, h, r')
      else if expired then Outcome(ETIMEDOUT, h, r')
      else Await(codec, parser, r', h)
    case Got(buf) =>
      match Walk(codec, parser, buf, 0, h)
      case Malformed(h') => Outcome(EINVAL, h', r')
      case RawMode(h', rest) => Outcome(h'.resp, h', r'.(pending := r'.pending + rest))
      case More(h') => Await(codec, parser, r', h')
  }

  /** One more read of a wait. */
  lemma AwaitStep(codec: Codec, parser: Parser, r: Reader, h: Heard, d: Delivery, r': Reader)
    requires Live(r.link) && Live(r'.link) && Read(r, BUFFER) == (d, r')
    ensures d.Failed? ==> Await(codec, parser, r, h) == Outcome(if h.resp < 0 then d.code else h.resp, h, r')
    ensures d.Quiet? && !d.zlp && h.resp >= 0 ==> Await(codec, parser, r, h) == Outcome(h.resp, h, r')
    ensures d.Quiet? && (d.zlp || h.resp < 0) ==>
              Await(codec, parser, r, h) == if d.expired then Outcome(ETIMEDOUT, h, r') else Await(codec, parser, r', h)
    ensures d.Got? ==>
              var w := Walk(codec, parser, d.data, 0, h);
              Await(codec, parser, r, h)
              == if w.Malformed? then Outcome(EINVAL, w.heard, r')
                 else if w.RawMode? then Outcome(w.heard.resp, w.heard, r'.(pending := r'.pending + w.rest))
                 else Await(codec, parser, r', w.heard)
  {
    hide LinkRead, LinkSize, Live, Walk;
  }

  /** Raw sector data: reads are gathered until `n` bytes are there. */
  function Gather(r: Reader, n: nat): (Option<bytes>, Reader)
    requires Live(r.link)
    decreases ReaderSize(r)
  {
    hide LinkRead, LinkSize, Live;
    if n == 0 then (Some([]), r)
    else
      ReadShrinks(r, n);
      var (d, r') := Read(r, n);
      match d
      case Failed(_) => (None, r')
      case Quiet(zlp, _) => if zlp then Gather(r', n) else (None, r')
      case Got(data) =>
        var (more, r'') := Gather(r', n - |data|);
        (if more.Some? then Some(data + more.value) else None, r'')
  }

  // ----- Order

  /** Every byte the stream will deliver, in order. */
  function Payloads(script: seq<Event>): bytes {
    if |script| == 0 then []
    else (if script[0].Data? then script[0].payload else []) + Payloads(script[1..])
  }

  function Ahead(r: Reader): bytes
    requires r.link.Stream?
  {
    r.pending + Payloads(r.link.script)
  }

  lemma ReadKeepsOrder(r: Reader, len: nat)
    requires len > 0 && r.link.Stream?
    ensures var (d, r') := Read(r, len);
            r'.link.Stream? && Ahead(r) == (if d.Got? then d.data else []) + Ahead(r')
  {
    var s := r.link.script;
    if r.pending == [] && |s| > 0 && s[0].Data? && |s[0].payload| > len {
      assert ([Data(s[0].payload[len..])] + s[1..])[1..] == s[1..];
    }
  }

  lemma ReadDelivers(r: Reader, len: nat)
    requires len > 0 && r.link.Stream? && !Interrupted(r.link.script)
    ensures var (d, r') := Read(r, len);
            !d.Failed? && (d.Quiet? && !d.zlp ==> Ahead(r) == []) && r'.link.Stream? && !Interrupted(r'.link.script)
  {
  }

  /** Something other than data or a zero-length packet is ahead. */
  predicate Interrupted(script: seq<Event>) {
    exists i :: 0 <= i < |script| && (script[i].Lost? || (script[i].Silence? && !script[i].zlp))
  }

  /** Raw data arrives in order: what is gathered, followed by what is still ahead, is what was ahead. */
  lemma {:induction false} GatherKeepsOrder(r: Reader, n: nat)
    requires Live(r.link) && r.link.Stream?
    ensures var (data, r') := Gather(r, n);
            && r'.link.Stream? && Live(r'.link)
            && (data.Some? ==> |data.value| == n && Ahead(r) == data.value + Ahead(r'))
    ensures !Interrupted(r.link.script) ==>
              (Gather(r, n).0.Some? <==> n <= |Ahead(r)|) && !Interrupted(Gather(r, n).1.link.script)
    decreases ReaderSize(r)
  {
    hide LinkRead, LinkSize, Live, Interrupted, Read;
    if n > 0 {
      ReadShrinks(r, n);
      ReadKeepsOrder(r, n);
      if !Interrupted(r.link.script) { ReadDelivers(r, n); }
      var (d, r') := Read(r, n);
      if d.Got? {
        GatherKeepsOrder(r', n - |d.data|);
      } else if d.Quiet? && d.zlp {
        GatherKeepsOrder(r', n);
      }
    }
  }

  // ----- The switch to raw mode

  /** What a device says before it answers: log messages, whole in one delivery, and pauses. */
  datatype Chatter = Messages(docs: seq<bytes>) | Pause(zlp: bool)

  function Said(c: Chatter): Event {
    match c
    case Messages(docs) => Data(Joined(docs))
    case Pause(zlp) => Silence(zlp, false)
  }

  ghost predicate IsLog(codec: Codec, parser: Parser, d: bytes) {
    PlainDocument(codec, parser, d) && Parse(parser, codec.response(d).value).code < 0
  }

  ghost predicate AllLogs(codec: Codec, parser: Parser, docs: seq<bytes>) {
    forall i :: 0 <= i < |docs| ==> IsLog(codec, parser, docs[i])
  }

  ghost predicate OnlyLogs(codec: Codec, parser: Parser, c: Chatter) {
    c.Messages? ==>
      0 < |Joined(c.docs)| <= BUFFER && forall i :: 0 <= i < |c.docs| ==> IsLog(codec, parser, c.docs[i])
  }

  function SaidAll(chatter: seq<Chatter>): seq<Event> {
    if |chatter| == 0 then [] else [Said(chatter[0])] + SaidAll(chatter[1..])
  }

  lemma {:induction false} LogsLeaveNoResponse(codec: Codec, parser: Parser, docs: seq<bytes>, h: Heard)
    requires forall i :: 0 <= i < |docs| ==> IsLog(codec, parser, docs[i])
    ensures Plain(codec, parser, docs)
    ensures HearAll(codec, parser, docs, h).resp == h.resp
  {
    hide Parse, IsDocument, AnnouncesVip;
    assert Plain(codec, parser, docs) by {
      forall i | 0 <= i < |docs| ensures PlainDocument(codec, parser, docs[i]) { assert IsLog(codec, parser, docs[i]); }
    }
    if |docs| > 0 {
      assert IsLog(codec, parser, docs[0]);
      LogsLeaveNoResponse(codec, parser, docs[1..], Hear(h, parser, codec.response(docs[0]).value));
    }
  }

  /** A buffer of log messages only. */
  lemma WalkLogs(codec: Codec, parser: Parser, docs: seq<bytes>, h: Heard)
    requires forall i :: 0 <= i < |docs| ==> IsLog(codec, parser, docs[i])
    ensures Walk(codec, parser, Joined(docs), 0, h) == More(HearAll(codec, parser, docs, h))
    ensures HearAll(codec, parser, docs, h).resp == h.resp
  {
    hide Parse, IsDocument, AnnouncesVip, Hear, DocumentEnd;
    LogsLeaveNoResponse(codec, parser, docs, h);
    WalkDocuments(codec, parser, Joined(docs), 0, docs, h);
  }

  /** The buffer with the response that switches to raw mode: all behind its closing tag is kept. */
  lemma WalkToRawMode(codec: Codec, parser: Parser, buf: bytes, docs: seq<bytes>, ack: bytes, h: Heard)
    requires Plain(codec, parser, docs)
    requires IsDocument(ack) && codec.response(ack).Some? && Parse(parser, codec.response(ack).value).raw
    requires var k := |Joined(docs)|; k + |ack| <= |buf| && buf[..k] == Joined(docs) && buf[k..k + |ack|] == ack
    ensures var w := Walk(codec, parser, buf, 0, h);
            && w.RawMode? && w.rest == buf[|Joined(docs)| + |ack|..]
            && w.heard == Hear(HearAll(codec, parser, docs, h), parser, codec.response(ack).value)
  {
    hide Parse, AnnouncesVip, Hear, DocumentEnd, StrStr;
    WalkDocuments(codec, parser, buf, 0, docs, h);
    BoundsDocument(buf, |Joined(docs)|, ack);
  }

  /** The stream of a device that answers with a switch to raw mode, raw data close behind. */
  function RawAnswer(chatter: seq<Chatter>, docs: seq<bytes>, ack: bytes, head: bytes, rest: seq<Event>): seq<Event> {
    SaidAll(chatter) + [Data(Joined(docs) + ack + head)] + rest
  }

  /**
   * After the wait for the raw mode response, exactly the bytes behind its closing tag are
   * ahead, in order, however the payload is cut into deliveries.
   */
  lemma {:induction false} RawModeSplits(codec: Codec, parser: Parser, chatter: seq<Chatter>, docs: seq<bytes>,
                                         ack: bytes, head: bytes, rest: seq<Event>, h: Heard)
    requires h.resp < 0 && Live(Stream(RawAnswer(chatter, docs, ack, head, rest)))
    requires forall i :: 0 <= i < |chatter| ==> OnlyLogs(codec, parser, chatter[i])
    requires Plain(codec, parser, docs) && |Joined(docs)| + |ack| <= BUFFER
    requires IsDocument(ack) && codec.response(ack).Some? && Parse(parser, codec.response(ack).value).raw
    ensures var out := Await(codec, parser, Reader([], Stream(RawAnswer(chatter, docs, ack, head, rest))), h);
            && (Parse(parser, codec.response(ack).value).code >= 0 ==>
                  out.ret == Parse(parser, codec.response(ack).value).code)
            && (Parse(parser, codec.response(ack).value).code < 0 && AllLogs(codec, parser, docs) ==> out.ret == h.resp)
            && out.reader.link.Stream? && Live(out.reader.link) && |out.reader.pending| < BUFFER
            && Ahead(out.reader) == head + Payloads(rest)
            && (!Interrupted(rest) ==> !Interrupted(out.reader.link.script))
  {
    hide Parse, IsDocument, AnnouncesVip, Hear, HearAll, Walk, Joined, IsLog, AllLogs;
    var script := RawAnswer(chatter, docs, ack, head, rest);
    var r := Reader([], Stream(script));
    if |chatter| == 0 {
      FirstRawBuffer(codec, parser, docs, ack, head, rest, h);
    } else {
      assert script[0] == Said(chatter[0]) && script[1..] == RawAnswer(chatter[1..], docs, ack, head, rest);
      assert OnlyLogs(codec, parser, chatter[0]);
      match chatter[0] {
        case Messages(ds) =>
          WalkLogs(codec, parser, ds, h);
          RawModeSplits(codec, parser, chatter[1..], docs, ack, head, rest, HearAll(codec, parser, ds, h));
        case Pause(_) =>
          RawModeSplits(codec, parser, chatter[1..], docs, ack, head, rest, h);
      }
    }
  }

  lemma FirstRawBuffer(codec: Codec, parser: Parser, docs: seq<bytes>, ack: bytes, head: bytes, rest: seq<Event>,
                       h: Heard)
    requires Live(Stream(RawAnswer([], docs, ack, head, rest)))
    requires Plain(codec, parser, docs) && |Joined(docs)| + |ack| <= BUFFER
    requires IsDocument(ack) && codec.response(ack).Some? && Parse(parser, codec.response(ack).value).raw
    ensures var out := Await(codec, parser, Reader([], Stream(RawAnswer([], docs, ack, head, rest))), h);
            && (Parse(parser, codec.response(ack).value).code >= 0 ==>
                  out.ret == Parse(parser, codec.response(ack).value).code)
            && (Parse(parser, codec.response(ack).value).code < 0 && AllLogs(codec, parser, docs) ==> out.ret == h.resp)
            && out.reader.link.Stream? && Live(out.reader.link) && |out.reader.pending| < BUFFER
            && Ahead(out.reader) == head + Payloads(rest)
            && (!Interrupted(rest) ==> !Interrupted(out.reader.link.script))
  {
    hide Parse, IsDocument, AnnouncesVip, Hear, HearAll, Walk, Joined, Live, Payloads, Interrupted, AllLogs;
    var script := RawAnswer([], docs, ack, head, rest);
    var r := Reader([], Stream(script));
    var p, k := Joined(docs) + ack + head, |Joined(docs)|;
    assert script[0] == Data(p) && script[1..] == rest;
    var (d, r') := Read(r, BUFFER);
    var buf := p[..Min(|p|, BUFFER)];
    assert d == Got(buf);
    assert buf[k..k + |ack|] == ack;
    WalkToRawMode(codec, parser, buf, docs, ack, h);
    HeardAtLast(codec, parser, docs, ack, h);
    NotEmpty(ack);
    ReadShrinks(r, BUFFER);
    assert r'.pending + buf[k + |ack|..] == buf[k + |ack|..];
    Remainder(p, head, k + |ack|, rest);
  }

  lemma HeardAtLast(codec: Codec, parser: Parser, docs: seq<bytes>, ack: bytes, h: Heard)
    requires codec.response(ack).Some?
    ensures var h' := Hear(HearAll(codec, parser, docs, h), parser, codec.response(ack).value);
            && (Parse(parser, codec.response(ack).value).code >= 0 ==>
                  h'.resp == Parse(parser, codec.response(ack).value).code)
            && (Parse(parser, codec.response(ack).value).code < 0 && AllLogs(codec, parser, docs) ==> h'.resp == h.resp)
  {
    hide Parse, AnnouncesVip, HearAll, IsLog;
    if AllLogs(codec, parser, docs) { LogsLeaveNoResponse(codec, parser, docs, h); }
  }

  lemma Remainder(p: bytes, head: bytes, k: nat, rest: seq<Event>)
    requires k <= |p| && k <= BUFFER && p[k..] == head
    ensures |p| > BUFFER ==> p[..BUFFER][k..] + Payloads([Data(p[BUFFER..])] + rest) == head + Payloads(rest)
    ensures |p| > BUFFER && !Interrupted(rest) ==> !Interrupted([Data(p[BUFFER..])] + rest)
    ensures |p| <= BUFFER ==> p[..|p|][k..] == head
  {
    if |p| > BUFFER {
      assert p[..BUFFER][k..] + p[BUFFER..] == p[k..];
      assert ([Data(p[BUFFER..])] + rest)[1..] == rest;
    }
  }

  /** A rawmode read gets exactly the bytes behind the closing tag of the response, in order. */
  lemma RawReadInOrder(codec: Codec, parser: Parser, chatter: seq<Chatter>, docs: seq<bytes>,
                       ack: bytes, head: bytes, rest: seq<Event>, n: nat)
    requires Live(Stream(RawAnswer(chatter, docs, ack, head, rest))) && !Interrupted(rest)
    requires forall i :: 0 <= i < |chatter| ==> OnlyLogs(codec, parser, chatter[i])
    requires Plain(codec, parser, docs) && |Joined(docs)| + |ack| <= BUFFER
    requires IsDocument(ack) && codec.response(ack).Some? && Parse(parser, codec.response(ack).value).raw
    ensures var out := Await(codec, parser, Reader([], Stream(RawAnswer(chatter, docs, ack, head, rest))), SILENT);
            var stream := head + Payloads(rest);
            && Live(out.reader.link)
            && (if n <= |stream| then Gather(out.reader, n).0 == Some(stream[..n])
                else Gather(out.reader, n).0 == None)
  {
    hide Parse, IsDocument, AnnouncesVip, Hear, HearAll, Walk, Joined, IsLog, Live, Plain, Interrupted, Gather,
        OnlyLogs, RawAnswer;
    RawModeSplits(codec, parser, chatter, docs, ack, head, rest, SILENT);
    var out := Await(codec, parser, Reader([], Stream(RawAnswer(chatter, docs, ack, head, rest))), SILENT);
    GatherKeepsOrder(out.reader, n);
    var (data, r') := Gather(out.reader, n);
    if data.Some? { assert (data.value + Ahead(r'))[..n] == data.value; }
  }
}

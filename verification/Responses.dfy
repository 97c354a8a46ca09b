/**
 * What the host makes of a response, told from its attributes: log messages, one response among them, and
 * then silence or raw data.
 */
module Responses {
  import opened Bytes
  import opened Options
  import opened Numerals
  import opened Framing
  import opened Transport

  predicate Has(node: Node, attr: string, text: string) {
    attr in node.attrs && node.attrs[attr] == Text(text)
  }

  /** A log message. */
  predicate SaysLog(node: Node) { node.name == "log" && "value" in node.attrs && !Has(node, "rawmode", "true") }

  ghost predicate LogMessage(codec: Codec, d: bytes) {
    IsDocument(d) && codec.response(d).Some? && SaysLog(codec.response(d).value)
  }

  ghost predicate LogMessages(codec: Codec, docs: seq<bytes>) {
    forall i :: 0 <= i < |docs| ==> LogMessage(codec, docs[i])
  }

  ghost predicate LogChatter(codec: Codec, chatter: seq<Chatter>) {
    forall i :: 0 <= i < |chatter| && chatter[i].Messages? ==>
      0 < |Joined(chatter[i].docs)| <= BUFFER && LogMessages(codec, chatter[i].docs)
  }

  /** How an answer ends: nothing more comes in time, or the device goes away, as it does after a reset. */
  datatype End = Quietly | Gone(unplugged: bool)

  function EndOf(end: End): Event { if end.Quietly? then Silence(false, true) else Lost(end.unplugged) }

  function ErrorOf(end: End): int {
    match end
    case Quietly => ETIMEDOUT
    case Gone(unplugged) => if unplugged then ENODEV else EIO
  }

  /** The answer to a command: log messages and pauses, a response among more of them, and the end. */
  function Answered(chatter: seq<Chatter>, before: seq<bytes>, d: bytes, after: seq<bytes>, end: End, rest: seq<Event>)
    : seq<Event>
  {
    SaidAll(chatter) + [Data(Joined(before + [d] + after)), EndOf(end)] + rest
  }

  ghost predicate IsAnswer(codec: Codec, chatter: seq<Chatter>, before: seq<bytes>, d: bytes, after: seq<bytes>) {
    && LogChatter(codec, chatter) && LogMessages(codec, before) && LogMessages(codec, after)
    && IsDocument(d) && codec.response(d).Some? && codec.response(d).value.name != "log"
    && |Joined(before + [d] + after)| <= BUFFER
  }

  lemma LogsAreLogs(codec: Codec, parser: Parser, docs: seq<bytes>)
    requires LogMessages(codec, docs)
    ensures forall i :: 0 <= i < |docs| ==> IsLog(codec, parser, docs[i])
  {
    hide IsDocument, Text;
    forall i | 0 <= i < |docs| ensures IsLog(codec, parser, docs[i]) {
      assert LogMessage(codec, docs[i]);
    }
  }

  lemma ChatterIsLogs(codec: Codec, parser: Parser, chatter: seq<Chatter>)
    requires LogChatter(codec, chatter)
    ensures forall i :: 0 <= i < |chatter| ==> OnlyLogs(codec, parser, chatter[i])
  {
    hide IsLog, LogMessages;
    forall i | 0 <= i < |chatter| ensures OnlyLogs(codec, parser, chatter[i]) {
      if chatter[i].Messages? { LogsAreLogs(codec, parser, chatter[i].docs); }
    }
  }

  lemma {:induction false} HearAllJoins(codec: Codec, parser: Parser, a: seq<bytes>, b: seq<bytes>, h: Heard)
    requires Plain(codec, parser, a)
    ensures HearAll(codec, parser, a + b, h) == HearAll(codec, parser, b, HearAll(codec, parser, a, h))
  {
    hide Hear, IsDocument;
    if |a| == 0 {
      assert a + b == b;
    } else {
      assert PlainDocument(codec, parser, a[0]);
      assert (a + b)[1..] == a[1..] + b;
      HearAllJoins(codec, parser, a[1..], b, Hear(h, parser, codec.response(a[0]).value));
    }
  }

  lemma {:induction false} LogsSayNoSize(codec: Codec, parser: Parser, docs: seq<bytes>, h: Heard)
    requires LogMessages(codec, docs)
    ensures HearAll(codec, parser, docs, h).size == h.size
  {
    hide IsDocument, AnnouncesVip, Text;
    if |docs| > 0 {
      assert LogMessage(codec, docs[0]);
      LogsSayNoSize(codec, parser, docs[1..], Hear(h, parser, codec.response(docs[0]).value));
    }
  }

  /** Log messages around a response change neither its code nor its size. */
  lemma HearAnswer(codec: Codec, parser: Parser, before: seq<bytes>, d: bytes, after: seq<bytes>, h: Heard)
    requires LogMessages(codec, before) && LogMessages(codec, after) && PlainDocument(codec, parser, d)
    ensures Plain(codec, parser, before + [d] + after)
    ensures var p, h' := Parse(parser, codec.response(d).value), HearAll(codec, parser, before + [d] + after, h);
            && h'.resp == (if p.code >= 0 then p.code else h.resp)
            && h'.size == (if p.size.Some? then p.size else h.size)
  {
    hide Parse, IsDocument, AnnouncesVip, LogMessage, HearAll;
    LogsAreLogs(codec, parser, before);
    LogsAreLogs(codec, parser, after);
    LogsLeaveNoResponse(codec, parser, before, h);
    var h1 := HearAll(codec, parser, before, h);
    var h2 := Hear(h1, parser, codec.response(d).value);
    LogsLeaveNoResponse(codec, parser, after, h2);
    LogsSayNoSize(codec, parser, before, h);
    LogsSayNoSize(codec, parser, after, h2);
    assert before + [d] + after == before + ([d] + after);
    HearAllJoins(codec, parser, before, [d] + after, h);
    HearFirst(codec, parser, d, after, h1);
  }

  lemma HearFirst(codec: Codec, parser: Parser, d: bytes, after: seq<bytes>, h: Heard)
    requires PlainDocument(codec, parser, d)
    ensures HearAll(codec, parser, [d] + after, h)
         == HearAll(codec, parser, after, Hear(h, parser, codec.response(d).value))
  {
    hide Hear, IsDocument;
    assert ([d] + after)[1..] == after;
  }

  /** The wait ends behind the answer, with the response's code if it has one. */
  lemma {:induction false} AwaitAnswer(codec: Codec, parser: Parser, chatter: seq<Chatter>, before: seq<bytes>,
                                       d: bytes, after: seq<bytes>, end: End, rest: seq<Event>, h: Heard)
    requires h.resp < 0 && Live(Stream(Answered(chatter, before, d, after, end, rest)))
    requires IsAnswer(codec, chatter, before, d, after) && PlainDocument(codec, parser, d)
    ensures var p := Parse(parser, codec.response(d).value);
            var out := Await(codec, parser, Reader([], Stream(Answered(chatter, before, d, after, end, rest))), h);
            && out.ret == (if p.code >= 0 then p.code else ErrorOf(end))
            && out.heard.size == (if p.size.Some? then p.size else h.size)
            && out.reader == Reader([], Stream(rest))
  {
    hide Parse, IsDocument, AnnouncesVip, Hear, HearAll, Walk, Joined, LogMessages;
    var script := Answered(chatter, before, d, after, end, rest);
    if |chatter| == 0 {
      FirstAnswer(codec, parser, before, d, after, end, rest, h);
    } else {
      assert script[0] == Said(chatter[0]) && script[1..] == Answered(chatter[1..], before, d, after, end, rest);
      if chatter[0].Messages? {
        var ds := chatter[0].docs;
        LogsAreLogs(codec, parser, ds);
        WalkLogs(codec, parser, ds, h);
        LogsSayNoSize(codec, parser, ds, h);
        AwaitAnswer(codec, parser, chatter[1..], before, d, after, end, rest, HearAll(codec, parser, ds, h));
      } else {
        AwaitAnswer(codec, parser, chatter[1..], before, d, after, end, rest, h);
      }
    }
  }

  lemma FirstAnswer(codec: Codec, parser: Parser, before: seq<bytes>, d: bytes, after: seq<bytes>, end: End,
                    rest: seq<Event>,
                    h: Heard)
    requires h.resp < 0 && Live(Stream(Answered([], before, d, after, end, rest)))
    requires IsAnswer(codec, [], before, d, after) && PlainDocument(codec, parser, d)
    ensures var p := Parse(parser, codec.response(d).value);
            var out := Await(codec, parser, Reader([], Stream(Answered([], before, d, after, end, rest))), h);
            && out.ret == (if p.code >= 0 then p.code else ErrorOf(end))
            && out.heard.size == (if p.size.Some? then p.size else h.size)
            && out.reader == Reader([], Stream(rest))
  {
    hide Parse, IsDocument, AnnouncesVip, Hear, HearAll, Walk, Joined, LogMessages, Read, Live;
    var docs := before + [d] + after;
    var buf := Joined(docs);
    HearAnswer(codec, parser, before, d, after, h);
    WalkAll(codec, parser, docs, h);
    assert Answered([], before, d, after, end, rest) == [Data(buf), EndOf(end)] + rest;
    DocumentsShow(docs, |before|);
    NotEmpty(d);
    AnswerIsRead(buf, end, rest);
    StillLive([Data(buf), EndOf(end)] + rest);
    assert ([Data(buf), EndOf(end)] + rest)[1..] == [EndOf(end)] + rest;
    AwaitStep(codec, parser, Reader([], Stream([Data(buf), EndOf(end)] + rest)), h, Got(buf),
              Reader([], Stream([EndOf(end)] + rest)));
    StillLive([EndOf(end)] + rest);
    assert ([EndOf(end)] + rest)[1..] == rest;
    AwaitStep(codec, parser, Reader([], Stream([EndOf(end)] + rest)), HearAll(codec, parser, docs, h),
              EndRead(end), Reader([], Stream(rest)));
  }

  lemma StillLive(script: seq<Event>)
    requires |script| > 0 && Live(Stream(script))
    ensures Live(Stream(script[1..]))
  {
  }

  lemma WalkAll(codec: Codec, parser: Parser, docs: seq<bytes>, h: Heard)
    requires Plain(codec, parser, docs)
    ensures Walk(codec, parser, Joined(docs), 0, h) == More(HearAll(codec, parser, docs, h))
  {
    hide Parse, IsDocument, AnnouncesVip, Hear, DocumentEnd;
    WalkDocuments(codec, parser, Joined(docs), 0, docs, h);
  }

  lemma {:induction false} DocumentsShow(docs: seq<bytes>, i: nat)
    requires i < |docs|
    ensures |docs[i]| <= |Joined(docs)|
  {
    if i > 0 { DocumentsShow(docs[1..], i - 1); }
  }

  function EndRead(end: End): Delivery { if end.Quietly? then Quiet(false, true) else Failed(ErrorOf(end)) }

  lemma AnswerIsRead(p: bytes, end: End, rest: seq<Event>)
    requires 0 < |p| <= BUFFER
    ensures var r1 := Reader([], Stream([EndOf(end)] + rest));
            && Read(Reader([], Stream([Data(p), EndOf(end)] + rest)), BUFFER) == (Got(p), r1)
            && Read(r1, BUFFER) == (EndRead(end), Reader([], Stream(rest)))
  {
    assert ([Data(p), EndOf(end)] + rest)[1..] == [EndOf(end)] + rest;
    assert ([EndOf(end)] + rest)[1..] == rest;
  }

  // ----- The generic wait

  /** Success is 0 and comes of "ACK" alone, refusal is 1 and comes of "NAK" alone; all else is an error. */
  predicate Judges(ret: int, node: Node) {
    && (ret == 0 <==> Has(node, "value", "ACK"))
    && (ret == 1 <==> Has(node, "value", "NAK"))
    && (ret == 0 || ret == 1 || ret < 0)
  }

  lemma GenericIs(node: Node)
    requires node.name != "log"
    ensures var p := ParseGeneric(node);
            && (p.code == 0 <==> Has(node, "value", "ACK")) && (p.code == 1 <==> Has(node, "value", "NAK"))
            && (p.code == 0 || p.code == 1 || p.code < 0) && p.size.None?
            && ("value" in node.attrs ==> (p.raw <==> Has(node, "rawmode", "true")))
            && (p.raw ==> Has(node, "rawmode", "true"))
  {
    assert Text("ACK") != Text("NAK") by { assert Text("ACK")[0] == 65; }
  }

  ghost predicate IsPlain(codec: Codec, chatter: seq<Chatter>, before: seq<bytes>, d: bytes, after: seq<bytes>) {
    IsAnswer(codec, chatter, before, d, after) && !Has(codec.response(d).value, "rawmode", "true")
  }

  ghost predicate IsSwitch(codec: Codec, chatter: seq<Chatter>, before: seq<bytes>, d: bytes) {
    && IsAnswer(codec, chatter, before, d, []) && Has(codec.response(d).value, "rawmode", "true")
    && "value" in codec.response(d).value.attrs
  }

  /** An answer without a switch to raw mode is judged by its value. */
  lemma AnswerJudged(codec: Codec, chatter: seq<Chatter>, before: seq<bytes>, d: bytes, after: seq<bytes>,
                     end: End, rest: seq<Event>)
    requires Live(Stream(Answered(chatter, before, d, after, end, rest))) && IsPlain(codec, chatter, before, d, after)
    ensures var out := Await(codec, GenericParser, Reader([], Stream(Answered(chatter, before, d, after, end, rest))),
                             SILENT);
            Judges(out.ret, codec.response(d).value) && out.reader == Reader([], Stream(rest))
  {
    hide IsDocument, ParseGeneric, Has, Answered, Await, Live;
    GenericIs(codec.response(d).value);
    AwaitAnswer(codec, GenericParser, chatter, before, d, after, end, rest, SILENT);
  }

  /** So is an answer that switches to raw mode, whatever follows. */
  lemma RawAnswerJudged(codec: Codec, chatter: seq<Chatter>, before: seq<bytes>, d: bytes, head: bytes,
                        rest: seq<Event>)
    requires Live(Stream(RawAnswer(chatter, before, d, head, rest))) && IsSwitch(codec, chatter, before, d)
    ensures var out := Await(codec, GenericParser, Reader([], Stream(RawAnswer(chatter, before, d, head, rest))),
                             SILENT);
            Judges(out.ret, codec.response(d).value)
  {
    hide IsDocument, ParseGeneric, Has, RawAnswer, Await, Live, IsLog, OnlyLogs, LogMessages, Joined;
    GenericIs(codec.response(d).value);
    LogsAreLogs(codec, GenericParser, before);
    ChatterIsLogs(codec, GenericParser, chatter);
    LogsLeaveNoResponse(codec, GenericParser, before, SILENT);
    RawFits(before, d);
    RawModeSplits(codec, GenericParser, chatter, before, d, head, rest, SILENT);
  }

  lemma RawFits(before: seq<bytes>, d: bytes)
    ensures |Joined(before)| + |d| == |Joined(before + [d] + [])|
  {
    assert before + [d] + [] == before + [d];
    JoinedAppends(before, d);
  }

  lemma {:induction false} JoinedAppends(a: seq<bytes>, d: bytes)
    ensures |Joined(a + [d])| == |Joined(a)| + |d|
  {
    if |a| > 0 {
      assert (a + [d])[1..] == a[1..] + [d];
      JoinedAppends(a[1..], d);
    } else {
      assert a + [d] == [d] && Joined([d][1..]) == [];
    }
  }

  /** Whatever is answered, the return value is 0 exactly for "ACK" and 1 exactly for "NAK". */
  ghost predicate Judged(codec: Codec, r: Reader, ret: int) {
    && (forall chatter, before, d, after, end, rest | r
        == Reader([], Stream(Answered(chatter, before, d, after, end, rest))) ::
          IsPlain(codec, chatter, before, d, after) ==> Judges(ret, codec.response(d).value))
    && (forall chatter, before, d, head, rest | r == Reader([], Stream(RawAnswer(chatter, before, d, head, rest))) ::
          IsSwitch(codec, chatter, before, d) ==> Judges(ret, codec.response(d).value))
  }

  lemma AwaitJudges(codec: Codec, r: Reader)
    requires Live(r.link)
    ensures Judged(codec, r, Await(codec, GenericParser, r, SILENT).ret)
  {
    hide Await, Live, Answered, RawAnswer, Has, Judges, LogChatter, LogMessages, IsDocument, Joined;
    var ret := Await(codec, GenericParser, r, SILENT).ret;
    forall chatter, before, d, after, end, rest | r
        == Reader([], Stream(Answered(chatter, before, d, after, end, rest)))
                                              && IsPlain(codec, chatter, before, d, after)
      ensures Judges(ret, codec.response(d).value)
    {
      AnswerJudged(codec, chatter, before, d, after, end, rest);
    }
    forall chatter, before, d, head, rest | r == Reader([], Stream(RawAnswer(chatter, before, d, head, rest)))
                                             && IsSwitch(codec, chatter, before, d)
      ensures Judges(ret, codec.response(d).value)
    {
      RawAnswerJudged(codec, chatter, before, d, head, rest);
    }
  }

  // ----- The wait for an answer to configure

  /** The attribute that has the size to use: an acknowledgement may allow for more than was asked for. */
  function SizeName(node: Node): string {
    if Has(node, "value", "ACK") then "MaxPayloadSizeToTargetInBytesSupported" else "MaxPayloadSizeToTargetInBytes"
  }

  /** An answer with the attributes that are looked at. */
  predicate Proposes(node: Node) {
    "value" in node.attrs && "MaxPayloadSizeToTargetInBytes" in node.attrs && SizeName(node) in node.attrs
  }

  /** Success comes of any answer that proposes a size, even of a refusal, and the size is the one in its attribute. */
  ghost predicate Configures(ret: int, size: Option<nat>, node: Node) {
    && (ret == 0 <==> Proposes(node)) && (ret == 0 || ret < 0)
    && (Proposes(node) ==>
          forall n: nat | n < UINT64_RANGE && node.attrs[SizeName(node)] == Decimal(n) :: size == Some(n))
    && (!Proposes(node) ==> size == None)
  }

  lemma ConfigureIs(node: Node)
    requires node.name != "log"
    ensures var p := ParseConfigure(node);
            !p.raw && (p.code >= 0 || !Proposes(node)) && Configures(p.code, p.size, node)
  {
    hide Decimal, Strtoul, Text;
    forall n: nat | Proposes(node) && n < UINT64_RANGE && node.attrs[SizeName(node)] == Decimal(n)
      ensures ParseConfigure(node).size == Some(n)
    {
      StrtoulOfDecimal(n, [], 10);
      assert Decimal(n) + [] == Decimal(n);
    }
  }

  ghost predicate Configured(codec: Codec, r: Reader, ret: int, size: Option<nat>) {
    forall chatter, before, d, after, end, rest | r
        == Reader([], Stream(Answered(chatter, before, d, after, end, rest))) ::
      IsAnswer(codec, chatter, before, d, after) ==> Configures(ret, size, codec.response(d).value)
  }

  lemma AwaitConfigures(codec: Codec, r: Reader)
    requires Live(r.link)
    ensures var out := Await(codec, ConfigureParser, r, SILENT); Configured(codec, r, out.ret, out.heard.size)
  {
    hide Await, Live, Answered, Has, LogChatter, LogMessages, IsDocument, Joined, Proposes, ParseConfigure, SizeName,
         Decimal;
    forall chatter, before, d, after, end, rest | r
        == Reader([], Stream(Answered(chatter, before, d, after, end, rest)))
                                              && IsAnswer(codec, chatter, before, d, after)
      ensures var out := Await(codec, ConfigureParser, r, SILENT);
              Configures(out.ret, out.heard.size, codec.response(d).value)
    {
      ConfigureIs(codec.response(d).value);
      AwaitAnswer(codec, ConfigureParser, chatter, before, d, after, end, rest, SILENT);
    }
  }

  /** What a wait makes of an answer, with either parser. */
  ghost predicate Understood(codec: Codec, parser: Parser, r: Reader, ret: int, size: Option<nat>) {
    if parser.GenericParser? then Judged(codec, r, ret) else Configured(codec, r, ret, size)
  }

  lemma AwaitUnderstands(codec: Codec, parser: Parser, r: Reader)
    requires Live(r.link)
    ensures var out := Await(codec, parser, r, SILENT); Understood(codec, parser, r, out.ret, out.heard.size)
  {
    hide Judged, Configured, Await;
    if parser.GenericParser? { AwaitJudges(codec, r); } else { AwaitConfigures(codec, r); }
  }

  // ----- The announcement of VIP

  predicate Shows(s: bytes, text: bytes, i: nat) { i + |text| <= |s| && s[i..i + |text|] == text }

  ghost predicate Contains(s: bytes, text: bytes) { exists i :: Shows(s, text, i) }

  lemma {:induction false} StrStrFinds(s: bytes, text: bytes, from: nat)
    requires NoNul(s) && from <= |s|
    ensures StrStr(s, text, from).None? ==> forall i :: from <= i ==> !Shows(s, text, i)
    ensures StrStr(s, text, from).Some? ==> Shows(s, text, StrStr(s, text, from).value)
    decreases |s| - from
  {
    if from < |s| && !Shows(s, text, from) { StrStrFinds(s, text, from + 1); }
  }

  /** VIP is announced by log messages that have this text somewhere, and by nothing else. */
  lemma AnnouncedIff(node: Node)
    requires "value" in node.attrs ==> NoNul(node.attrs["value"])
    ensures AnnouncesVip(node)
        <==> node.name == "log" && "value" in node.attrs
             && Contains(node.attrs["value"], Text("VIP is enabled, receiving the signed table"))
  {
    hide StrStr, Text;
    if "value" in node.attrs { StrStrFinds(node.attrs["value"], Text(VIP_MARKER), 0); }
  }
}

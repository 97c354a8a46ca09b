/** What waiting for a response gives on the simulator's response queue. */
module SimAnswers {
  import opened Bytes
  import opened Options
  import opened Numerals
  import opened Framing
  import opened SimDocuments
  import opened Transport

  /** A log message of the simulator changes nothing of what was heard. */
  lemma LogSaysNothing(codec: Codec, parser: Parser, handler: string, h: Heard)
    requires Faithful(codec) && handler in HANDLERS
    ensures PlainDocument(codec, parser, LogDocument(handler)) && 0 < |LogDocument(handler)| <= BUFFER
    ensures Hear(h, parser, codec.response(LogDocument(handler)).value) == h
  {
    hide IsDocument;
    HandlersAreClean(handler);
    LogIsDocument(handler);
    LogIsShort(handler);
    NotAnnouncing(handler);
  }

  lemma LogIsShort(handler: string)
    requires |handler| <= 9
    ensures 0 < |LogDocument(handler)| <= BUFFER
  {
    assert |LogText(handler)| < 1000;
  }

  lemma NotAnnouncing(handler: string)
    requires |handler| <= 9
    ensures !AnnouncesVip(LogNode(handler))
  {
    hide StrStr;
    TooShort(Text(CALLING + handler), Text(VIP_MARKER), 0);
  }

  lemma {:induction false} TooShort(s: bytes, needle: bytes, from: nat)
    requires |s| < |needle| && from <= |s|
    ensures StrStr(s, needle, from) == None
    decreases |s| - from
  {
    if from < |s| { TooShort(s, needle, from + 1); }
  }

  lemma AckHeard(codec: Codec, h: Heard)
    requires Faithful(codec)
    ensures PlainDocument(codec, GenericParser, SIM_ACK) && 0 < |SIM_ACK| <= BUFFER
    ensures Hear(h, GenericParser, codec.response(SIM_ACK).value) == h.(resp := ACK)
  {
    hide IsDocument;
    AckIsDocument();
    assert Text("false") != Text("true") by { assert |Text("false")| == 5; }
  }

  lemma RawAckHeard(codec: Codec, h: Heard)
    requires Faithful(codec)
    ensures IsDocument(SIM_ACK_RAWMODE) && 0 < |SIM_ACK_RAWMODE| <= BUFFER
    ensures codec.response(SIM_ACK_RAWMODE).Some? && Parse(GenericParser, codec.response(SIM_ACK_RAWMODE).value).raw
    ensures Hear(h, GenericParser, codec.response(SIM_ACK_RAWMODE).value) == h.(resp := ACK)
  {
    hide IsDocument;
    AckIsDocument();
  }

  lemma ConfigureHeard(codec: Codec, h: Heard)
    requires Faithful(codec)
    ensures PlainDocument(codec, ConfigureParser, SIM_CONFIGURE_ACK) && 0 < |SIM_CONFIGURE_ACK| <= BUFFER
    ensures Hear(h, ConfigureParser, codec.response(SIM_CONFIGURE_ACK).value)
         == h.(resp := ACK, size := Some(SIM_PAYLOAD_SIZE))
  {
    hide IsDocument, Decimal, Strtoul;
    ConfigureAckIsDocument();
    ConfigureAckIsShort();
    StrtoulOfDecimal(SIM_PAYLOAD_SIZE, [], 10);
    assert Decimal(SIM_PAYLOAD_SIZE) + [] == Decimal(SIM_PAYLOAD_SIZE);
    PayloadSizePrinted();
  }

  lemma PayloadSizePrinted()
    ensures Text("1048576") == Decimal(SIM_PAYLOAD_SIZE)
  {
    assert Decimal(10485) == [49, 48, 52, 56, 53] by {
      assert Decimal(104) == [49, 48, 52];
      assert Decimal(1048) == [49, 48, 52, 56];
    }
    assert Decimal(104857) == [49, 48, 52, 56, 53, 55];
  }

  lemma ConfigureAckIsShort()
    ensures 0 < |SIM_CONFIGURE_ACK| <= BUFFER
  {
    assert |CONFIGURE_ACK_TEXT| < 1000;
  }

  // ----- Waiting

  /** The simulator with these responses queued, and not about to send raw data. */
  function Queued(docs: seq<bytes>, phase: Phase, remaining: nat): Reader {
    Reader([], Simulated(docs, phase, remaining, false))
  }

  lemma WalkOne(codec: Codec, parser: Parser, d: bytes, h: Heard)
    requires PlainDocument(codec, parser, d)
    ensures Walk(codec, parser, d, 0, h) == More(Hear(h, parser, codec.response(d).value))
  {
    hide IsDocument, Parse, Hear;
    assert Joined([d]) == d + [];
    assert HearAll(codec, parser, [d], h) == Hear(h, parser, codec.response(d).value);
    assert Plain(codec, parser, [d]);
    WalkDocuments(codec, parser, d, 0, [d], h);
  }

  lemma {:induction false} AwaitQueue(codec: Codec, parser: Parser, docs: seq<bytes>, phase: Phase, remaining: nat,
                                      h: Heard)
    requires Plain(codec, parser, docs) && !phase.RawOut?
    requires forall i :: 0 <= i < |docs| ==> 0 < |docs[i]| <= BUFFER
    ensures var h' := HearAll(codec, parser, docs, h);
            Await(codec, parser, Queued(docs, phase, remaining), h)
            == Outcome(if h'.resp >= 0 then h'.resp else ETIMEDOUT, h', Queued([], phase, remaining))
  {
    hide IsDocument, Parse, Hear, Walk;
    if |docs| > 0 {
      assert PlainDocument(codec, parser, docs[0]);
      WalkOne(codec, parser, docs[0], h);
      AwaitQueue(codec, parser, docs[1..], phase, remaining, Hear(h, parser, codec.response(docs[0]).value));
    }
  }

  /** Nothing is queued: the wait times out. */
  lemma AwaitNothing(codec: Codec, parser: Parser, phase: Phase, remaining: nat)
    requires !phase.RawOut?
    ensures Await(codec, parser, Queued([], phase, remaining), SILENT)
         == Outcome(ETIMEDOUT, SILENT, Queued([], phase, remaining))
  {
    AwaitQueue(codec, parser, [], phase, remaining, SILENT);
  }

  lemma AwaitAck(codec: Codec, phase: Phase, remaining: nat)
    requires Faithful(codec) && !phase.RawOut?
    ensures |SIM_ACK| > 0
    ensures Await(codec, GenericParser, Queued([SIM_ACK], phase, remaining), SILENT)
         == Outcome(ACK, SILENT.(resp := ACK), Queued([], phase, remaining))
  {
    hide IsDocument, Parse, Hear, Faithful, SIM_ACK, HearAll;
    AckHeard(codec, SILENT);
    HearOne(codec, GenericParser, SIM_ACK, SILENT);
    AwaitQueue(codec, GenericParser, [SIM_ACK], phase, remaining, SILENT);
  }

  lemma HearOne(codec: Codec, parser: Parser, d: bytes, h: Heard)
    requires codec.response(d).Some?
    ensures HearAll(codec, parser, [d], h) == Hear(h, parser, codec.response(d).value)
  {
    assert HearAll(codec, parser, [], Hear(h, parser, codec.response(d).value))
        == Hear(h, parser, codec.response(d).value);
  }

  lemma HearTwo(codec: Codec, parser: Parser, d: bytes, e: bytes, h: Heard)
    requires codec.response(d).Some? && codec.response(e).Some?
    requires Hear(h, parser, codec.response(d).value) == h
    ensures HearAll(codec, parser, [d, e], h) == Hear(h, parser, codec.response(e).value)
  {
    hide Hear;
    assert [d, e][1..] == [e];
    HearOne(codec, parser, e, h);
  }

  lemma AwaitLogAndAck(codec: Codec, handler: string, phase: Phase, remaining: nat)
    requires Faithful(codec) && handler in HANDLERS && !phase.RawOut?
    ensures |SIM_ACK| > 0 && |LogDocument(handler)| > 0
    ensures Await(codec, GenericParser, Queued([LogDocument(handler), SIM_ACK], phase, remaining), SILENT)
         == Outcome(ACK, SILENT.(resp := ACK), Queued([], phase, remaining))
  {
    hide IsDocument, Parse, Hear, Faithful, SIM_ACK, LogDocument, HearAll;
    AckHeard(codec, SILENT);
    LogSaysNothing(codec, GenericParser, handler, SILENT);
    HearTwo(codec, GenericParser, LogDocument(handler), SIM_ACK, SILENT);
    AwaitQueue(codec, GenericParser, [LogDocument(handler), SIM_ACK], phase, remaining, SILENT);
  }

  lemma AwaitLogAndConfigure(codec: Codec, remaining: nat)
    requires Faithful(codec)
    ensures |SIM_CONFIGURE_ACK| > 0 && |LogDocument("configure")| > 0
    ensures Await(codec, ConfigureParser, Queued([LogDocument("configure"), SIM_CONFIGURE_ACK], Xml, remaining), SILENT)
         == Outcome(ACK, Heard(ACK, false, Some(SIM_PAYLOAD_SIZE)), Queued([], Xml, remaining))
  {
    hide IsDocument, Parse, Hear, Faithful, SIM_CONFIGURE_ACK, LogDocument, HearAll;
    ConfigureHeard(codec, SILENT);
    LogSaysNothing(codec, ConfigureParser, "configure", SILENT);
    HearTwo(codec, ConfigureParser, LogDocument("configure"), SIM_CONFIGURE_ACK, SILENT);
    AwaitQueue(codec, ConfigureParser, [LogDocument("configure"), SIM_CONFIGURE_ACK], Xml, remaining, SILENT);
  }

  /** The switch to raw mode ends the wait at once; the raw data stays with the simulator. */
  lemma AwaitLogAndRaw(codec: Codec, handler: string, phase: Phase, remaining: nat)
    requires Faithful(codec) && handler in HANDLERS
    ensures |SIM_ACK_RAWMODE| > 0 && |LogDocument(handler)| > 0
    ensures Await(codec, GenericParser, Queued([LogDocument(handler), SIM_ACK_RAWMODE], phase, remaining), SILENT)
         == Outcome(ACK, SILENT.(resp := ACK), Queued([], phase, remaining))
  {
    hide IsDocument, Parse, Hear, Faithful, SIM_ACK_RAWMODE, LogDocument, HearAll, Walk;
    var d, e := LogDocument(handler), SIM_ACK_RAWMODE;
    LogSaysNothing(codec, GenericParser, handler, SILENT);
    RawAckHeard(codec, SILENT);
    WalkOne(codec, GenericParser, d, SILENT);
    assert Joined([]) == [];
    WalkToRawMode(codec, GenericParser, e, [], e, SILENT);
    assert HearAll(codec, GenericParser, [], SILENT) == SILENT by { HearNone(codec); }
    assert [d, e] == [d] + [e] && [e] == [e] + [];
    ReadQueued(d, [e], phase, remaining);
    ReadQueued(e, [], phase, remaining);
  }

  /** A queued response is read whole. */
  lemma ReadQueued(d: bytes, rest: seq<bytes>, phase: Phase, remaining: nat)
    requires 0 < |d| <= BUFFER
    requires forall i :: 0 <= i < |rest| ==> 0 < |rest[i]|
    ensures Live(Queued([d] + rest, phase, remaining).link)
    ensures Read(Queued([d] + rest, phase, remaining), BUFFER) == (Got(d), Queued(rest, phase, remaining))
  {
    assert ([d] + rest)[1..] == rest;
  }

  lemma HearNone(codec: Codec)
    ensures HearAll(codec, GenericParser, [], SILENT) == SILENT
  {
  }
}

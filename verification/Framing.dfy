/** Firehose messages: XML documents in a byte stream, and the loop that consumes them. */
module Framing {
  import opened Bytes
  import opened Options
  import opened Numerals

  /** The one element inside <data>, as an attribute record. */
  datatype Node = Node(name: string, attrs: map<string, bytes>)

  /** What the XML library makes of a command. */
  datatype CommandDoc = NotXml | NoCommand | Command(node: Node)

  /** The XML library: writing a document, reading a response, reading a command. */
  datatype Codec = Codec(render: Node -> bytes, response: bytes -> Option<Node>, command: bytes -> CommandDoc)

  const XML_START: bytes := [60, 63, 120, 109, 108]            // <?xml
  const XML_END: bytes := [60, 47, 100, 97, 116, 97, 62]       // </data>

  /** strstr from position `from` of a NUL-terminated buffer: the first match, NUL ends the search. */
  function StrStr(s: bytes, needle: bytes, from: nat): (r: Option<nat>)
    requires from <= |s|
    ensures r.Some? ==> from <= r.value && r.value + |needle| <= |s| && s[r.value..r.value + |needle|] == needle
    decreases |s| - from
  {
    if from + |needle| <= |s| && s[from..from + |needle|] == needle then Some(from)
    else if from >= |s| || s[from] == 0 then None
    else StrStr(s, needle, from + 1)
  }

  // ----- Responses

  const ACK := 0
  const NAK := 1
  const EIO := -5
  const EAGAIN := -11
  const ENODEV := -19
  const EINVAL := -22
  const ETIMEDOUT := -110

  datatype Parser = GenericParser | ConfigureParser

  /** A parsed response: its code, whether it switches to raw mode, and a configure size. */
  datatype Parsed = Parsed(code: int, raw: bool, size: Option<nat>)

  function IsText(node: Node, attr: string, text: string): bool {
    attr in node.attrs && node.attrs[attr] == Text(text)
  }

  /** `firehose_generic_parser` */
  function ParseGeneric(node: Node): Parsed {
    if "value" !in node.attrs then Parsed(EINVAL, false, None)
    else
      var code := if node.name == "log" then EAGAIN
                  else if IsText(node, "value", "ACK") then ACK
                  else if IsText(node, "value", "NAK") then NAK
                  else EINVAL;
      Parsed(code, IsText(node, "rawmode", "true"), None)
  }

  function Number(text: bytes): nat { Strtoul(text, 10).0 }

  /** `firehose_configure_response_parser` */
  function ParseConfigure(node: Node): Parsed {
    if "value" !in node.attrs then Parsed(EINVAL, false, None)
    else if node.name == "log" then Parsed(EAGAIN, false, None)
    else if "MaxPayloadSizeToTargetInBytes" !in node.attrs then Parsed(EINVAL, false, None)
    else if IsText(node, "value", "ACK") then
      if "MaxPayloadSizeToTargetInBytesSupported" !in node.attrs then Parsed(EINVAL, false, None)
      else Parsed(ACK, false, Some(Number(node.attrs["MaxPayloadSizeToTargetInBytesSupported"])))
    else Parsed(ACK, false, Some(Number(node.attrs["MaxPayloadSizeToTargetInBytes"])))
  }

  const VIP_MARKER := "VIP is enabled, receiving the signed table"

  /** `firehose_check_vip_marker` */
  predicate AnnouncesVip(node: Node) {
    node.name == "log" && "value" in node.attrs && StrStr(node.attrs["value"], Text(VIP_MARKER), 0).Some?
  }

  // ----- One buffer of messages

  /** What the messages so far amount to: the last response, a VIP announcement, a configure size. */
  datatype Heard = Heard(resp: int, vip: bool, size: Option<nat>)

  const SILENT := Heard(EIO, false, None)

  function Parse(parser: Parser, node: Node): Parsed {
    match parser
    case GenericParser => ParseGeneric(node)
    case ConfigureParser => ParseConfigure(node)
  }

  function Hear(h: Heard, parser: Parser, node: Node): Heard {
    var p := Parse(parser, node);
    Heard(if p.code >= 0 then p.code else h.resp, h.vip || AnnouncesVip(node), if p.size.Some? then p.size else h.size)
  }

  /** How the walk over a buffer ends: more input is needed, raw mode with the rest, or no response. */
  datatype Walked = More(heard: Heard) | RawMode(heard: Heard, rest: bytes) | Malformed(heard: Heard)

  /** Where the document that starts at `start` ends: behind its closing tag, or with the buffer. */
  function DocumentEnd(buf: bytes, start: nat): (r: nat)
    requires start < |buf|
    ensures start < r <= |buf|
  {
    var e := StrStr(buf, XML_END, start);
    if e.Some? then e.value + 7 else |buf|
  }

  /** The walk over the documents of `buf` from `cursor`. */
  function Walk(codec: Codec, parser: Parser, buf: bytes, cursor: nat, h: Heard): (w: Walked)
    requires cursor <= |buf|
    ensures w.RawMode? ==> |w.rest| < |buf| && w.rest == buf[|buf| - |w.rest|..]
    decreases |buf| - cursor
  {
    var start := StrStr(buf, XML_START, cursor);
    if cursor >= |buf| || start.None? then More(h)
    else
      var stop := DocumentEnd(buf, start.value);
      var node := codec.response(buf[start.value..stop]);
      if node.None? then Malformed(h)
      else
        var h' := Hear(h, parser, node.value);
        if Parse(parser, node.value).raw then RawMode(h', buf[stop..])
        else Walk(codec, parser, buf, stop, h')
  }

  /** A whole message: it opens with the declaration and its first closing tag ends it. */
  ghost predicate IsDocument(d: bytes) {
    && |d| > 12 && d[..5] == XML_START && d[|d| - 7..] == XML_END
    && forall i :: 0 <= i < |d| ==> d[i] != 0 && (d[i] == 60 && i + 7 < |d| ==> d[i + 1] != 47)
  }

  predicate PassesOver(s: bytes, needle: bytes, i: nat) {
    i < |s| && s[i] != 0 && (i + |needle| <= |s| ==> s[i..i + |needle|] != needle)
  }

  lemma {:induction false} StrStrSkips(s: bytes, needle: bytes, from: nat, at: nat)
    requires from <= at && at + |needle| <= |s| && s[at..at + |needle|] == needle
    requires forall i :: from <= i < at ==> PassesOver(s, needle, i)
    ensures StrStr(s, needle, from) == Some(at)
    decreases at - from
  {
    if from < at {
      assert PassesOver(s, needle, from);
      StrStrSkips(s, needle, from + 1, at);
    }
  }

  /** A document found at `at` in a buffer is bounded exactly. */
  lemma BoundsDocument(buf: bytes, at: nat, d: bytes)
    requires IsDocument(d) && at + |d| <= |buf| && buf[at..at + |d|] == d
    ensures StrStr(buf, XML_START, at) == Some(at)
    ensures DocumentEnd(buf, at) == at + |d|
  {
    assert buf[at..at + 5] == buf[at..at + |d|][..5];
    var e := at + |d| - 7;
    assert buf[e..e + 7] == buf[at..at + |d|][|d| - 7..];
    forall i | at <= i < e
      ensures PassesOver(buf, XML_END, i)
    {
      assert buf[i] == d[i - at] && buf[i + 1] == d[i + 1 - at];
      assert buf[i..i + 7][0] == buf[i] && buf[i..i + 7][1] == buf[i + 1];
      assert XML_END[0] == 60 && XML_END[1] == 47;
    }
    StrStrSkips(buf, XML_END, at, e);
  }

  lemma NotEmpty(d: bytes)
    requires IsDocument(d)
    ensures |d| > 0
  {
  }

  /** Documents that are all answered, one after the other, without a switch to raw mode. */
  ghost predicate Plain(codec: Codec, parser: Parser, docs: seq<bytes>) {
    forall i :: 0 <= i < |docs| ==> PlainDocument(codec, parser, docs[i])
  }

  ghost predicate PlainDocument(codec: Codec, parser: Parser, d: bytes) {
    IsDocument(d) && codec.response(d).Some? && !Parse(parser, codec.response(d).value).raw
  }

  function HearAll(codec: Codec, parser: Parser, docs: seq<bytes>, h: Heard): Heard {
    if |docs| == 0 || codec.response(docs[0]).None? then h
    else HearAll(codec, parser, docs[1..], Hear(h, parser, codec.response(docs[0]).value))
  }

  /** All that follows, joined. */
  function Joined(pieces: seq<bytes>): bytes {
    if |pieces| == 0 then [] else pieces[0] + Joined(pieces[1..])
  }

  /** The walk takes whole documents one by one, and then goes on behind them. */
  lemma {:induction false} WalkDocuments(codec: Codec, parser: Parser, buf: bytes, at: nat, docs: seq<bytes>, h: Heard)
    requires Plain(codec, parser, docs)
    requires at + |Joined(docs)| <= |buf| && buf[at..at + |Joined(docs)|] == Joined(docs)
    ensures Walk(codec, parser, buf, at, h)
         == Walk(codec, parser, buf, at + |Joined(docs)|, HearAll(codec, parser, docs, h))
    decreases |docs|
  {
    hide Walk, IsDocument, Hear, Parse;
    if |docs| > 0 {
      var d, rest := docs[0], Joined(docs[1..]);
      assert PlainDocument(codec, parser, d);
      SliceSplits(buf, at, d, rest);
      WalkDocument(codec, parser, buf, at, d, h);
      WalkDocuments(codec, parser, buf, at + |d|, docs[1..], Hear(h, parser, codec.response(d).value));
    }
  }

  lemma SliceSplits(buf: bytes, at: nat, a: bytes, b: bytes)
    requires at + |a + b| <= |buf| && buf[at..at + |a + b|] == a + b
    ensures buf[at..at + |a|] == a && buf[at + |a|..at + |a| + |b|] == b
  {
    assert buf[at..at + |a|] == buf[at..at + |a + b|][..|a|];
    assert buf[at + |a|..at + |a| + |b|] == buf[at..at + |a + b|][|a|..];
  }

  /** The walk takes one whole document. */
  lemma WalkDocument(codec: Codec, parser: Parser, buf: bytes, at: nat, d: bytes, h: Heard)
    requires PlainDocument(codec, parser, d) && at + |d| <= |buf| && buf[at..at + |d|] == d
    ensures Walk(codec, parser, buf, at, h)
         == Walk(codec, parser, buf, at + |d|, Hear(h, parser, codec.response(d).value))
  {
    hide Parse, IsDocument, StrStr, AnnouncesVip, Hear, DocumentEnd;
    NotEmpty(d);
    BoundsDocument(buf, at, d);
  }
}

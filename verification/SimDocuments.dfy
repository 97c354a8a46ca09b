/** The responses of the simulated device, and what the host reads in them. */
module SimDocuments {
  import opened Bytes
  import opened Options
  import opened Numerals
  import opened Framing

  const OPENING := "<?xml version=\"1.0\" " + "encoding=\"UTF-8\" ?><data>"
  const CLOSING := "</data>"

  const ACK_TEXT := OPENING + ("<response value=\"ACK\" " + "rawmode=\"false\" />")
  const ACK_RAWMODE_TEXT := OPENING + ("<response value=\"ACK\" " + "rawmode=\"true\" />")
  const CONFIGURE_VERSION := "<response value=\"ACK\" MemoryName=\"ufs\"" + " MinVersionSupported=\"1\" Version=\"1\""
  const CONFIGURE_SIZES := " MaxPayloadSizeToTargetInBytes" + "=\"1048576\""
  const CONFIGURE_LIMITS := (" MaxPayloadSizeToTargetInBytes" + "Supported=\"1048576\"")
      + " MaxXMLSizeInBytes=\"4096\" />"
  const CONFIGURE_ACK_TEXT := OPENING + (CONFIGURE_VERSION + CONFIGURE_SIZES + CONFIGURE_LIMITS)

  const SIM_ACK: bytes := Text(ACK_TEXT + CLOSING)
  const SIM_ACK_RAWMODE: bytes := Text(ACK_RAWMODE_TEXT + CLOSING)
  const SIM_CONFIGURE_ACK: bytes := Text(CONFIGURE_ACK_TEXT + CLOSING)

  const CALLING := "INFO: Calling handler for "

  function LogText(handler: string): string { OPENING + "<log value=\"" + CALLING + handler + "\" />" }

  /** The log message that announces a handler. */
  function LogDocument(handler: string): bytes { Text(LogText(handler) + CLOSING) }

  const SIM_PAYLOAD_SIZE := 1048576

  const ACK_NODE := Node("response", map["value" := Text("ACK"), "rawmode" := Text("false")])
  const ACK_RAWMODE_NODE := Node("response", map["value" := Text("ACK"), "rawmode" := Text("true")])
  const CONFIGURE_ACK_NODE := Node("response", map[
    "value" := Text("ACK"), "MemoryName" := Text("ufs"), "MinVersionSupported" := Text("1"), "Version" := Text("1"),
    "MaxPayloadSizeToTargetInBytes" := Text("1048576"),
    "MaxPayloadSizeToTargetInBytesSupported" := Text("1048576"),
    "MaxXMLSizeInBytes" := Text("4096")])

  function LogNode(handler: string): Node { Node("log", map["value" := Text(CALLING + handler)]) }

  /** The commands a flashing session is made of. */
  const HANDLERS: set<string> := {"configure", "program", "read", "erase", "patch"}

  /** The XML library reads the simulator's documents. */
  ghost predicate Faithful(codec: Codec) {
    && codec.response(SIM_ACK) == Some(ACK_NODE)
    && codec.response(SIM_ACK_RAWMODE) == Some(ACK_RAWMODE_NODE)
    && codec.response(SIM_CONFIGURE_ACK) == Some(CONFIGURE_ACK_NODE)
    && (forall h | h in HANDLERS :: codec.response(LogDocument(h)) == Some(LogNode(h)))
  }

  /** The XML library gives back a command as it was written. */
  ghost predicate Carried(codec: Codec, node: Node) { codec.command(codec.render(node)) == Command(node) }

  ghost predicate AllCarried(codec: Codec, nodes: seq<Node>) {
    forall i :: 0 <= i < |nodes| ==> Carried(codec, nodes[i])
  }

  // ----- Every response is one whole document

  /** Text without a NUL and without the start of a closing tag, not even a cut one. */
  predicate NoClosing(s: string) {
    forall i :: 0 <= i < |s| ==> NoClosingAt(s, i)
  }

  predicate NoClosingAt(s: string, i: nat)
    requires i < |s|
  {
    s[i] != 0 as char && s[i] < 256 as char && (s[i] == '<' ==> i + 1 < |s| && s[i + 1] != '/')
  }

  lemma NoClosingJoins(s: string, t: string)
    requires NoClosing(s) && NoClosing(t)
    ensures NoClosing(s + t)
  {
    forall i | 0 <= i < |s + t|
      ensures NoClosingAt(s + t, i)
    {
      assert if i < |s| then NoClosingAt(s, i) else NoClosingAt(t, i - |s|);
    }
  }

  lemma MakesDocument(s: string)
    requires NoClosing(s) && |s| > 5 && s[..5] == "<?xml"
    ensures IsDocument(Text(s + CLOSING))
  {
    var d := Text(s + CLOSING);
    assert forall i :: 0 <= i < 5 ==> s[i] == s[..5][i];
    assert d[..5] == XML_START;
    assert d[|d| - 7..] == XML_END;
    forall i | 0 <= i < |d|
      ensures d[i] != 0 && (d[i] == 60 && i + 7 < |d| ==> d[i + 1] != 47)
    {
      if i < |s| { assert NoClosingAt(s, i); }
    }
  }

  lemma OpeningIsClean()
    ensures NoClosing(OPENING) && |OPENING| > 5 && OPENING[..5] == "<?xml"
  {
    assert NoClosing("<?xml version=\"1.0\" ");
    assert NoClosing("encoding=\"UTF-8\" ?><data>");
    NoClosingJoins("<?xml version=\"1.0\" ", "encoding=\"UTF-8\" ?><data>");
  }

  lemma OpensDocument(s: string)
    requires NoClosing(s)
    ensures IsDocument(Text(OPENING + s + CLOSING))
  {
    hide IsDocument, NoClosing;
    OpeningIsClean();
    NoClosingJoins(OPENING, s);
    MakesDocument(OPENING + s);
  }

  lemma AckIsDocument()
    ensures IsDocument(SIM_ACK) && IsDocument(SIM_ACK_RAWMODE)
  {
    hide IsDocument;
    assert NoClosing("<response value=\"ACK\" ");
    assert NoClosing("rawmode=\"false\" />");
    assert NoClosing("rawmode=\"true\" />");
    NoClosingJoins("<response value=\"ACK\" ", "rawmode=\"false\" />");
    NoClosingJoins("<response value=\"ACK\" ", "rawmode=\"true\" />");
    OpensDocument("<response value=\"ACK\" " + "rawmode=\"false\" />");
    OpensDocument("<response value=\"ACK\" " + "rawmode=\"true\" />");
  }

  lemma NameIsClean()
    ensures NoClosing("<response value=\"ACK\" MemoryName=\"ufs\"")
  {
  }

  lemma NumbersAreClean()
    ensures NoClosing(" MinVersionSupported=\"1\" Version=\"1\"")
  {
  }

  lemma VersionIsClean()
    ensures NoClosing(CONFIGURE_VERSION)
  {
    var a, b := "<response value=\"ACK\" MemoryName=\"ufs\"", " MinVersionSupported=\"1\" Version=\"1\"";
    assert NoClosing(a) by { NameIsClean(); }
    assert NoClosing(b) by { NumbersAreClean(); }
    hide NoClosing;
    NoClosingJoins(a, b);
  }

  lemma PayloadIsClean()
    ensures NoClosing(" MaxPayloadSizeToTargetInBytes")
  {
  }

  lemma XmlSizeIsClean()
    ensures NoClosing(" MaxXMLSizeInBytes=\"4096\" />")
  {
  }

  lemma SizesAreClean()
    ensures NoClosing(CONFIGURE_SIZES)
  {
    var c, d := " MaxPayloadSizeToTargetInBytes", "=\"1048576\"";
    assert NoClosing(c);
    assert NoClosing(d);
    hide NoClosing;
    NoClosingJoins(c, d);
  }

  lemma LimitsAreClean()
    ensures NoClosing(CONFIGURE_LIMITS)
  {
    var c, e, f := " MaxPayloadSizeToTargetInBytes", "Supported=\"1048576\"", " MaxXMLSizeInBytes=\"4096\" />";
    assert NoClosing(c) by { PayloadIsClean(); }
    assert NoClosing(e);
    assert NoClosing(f) by { XmlSizeIsClean(); }
    hide NoClosing;
    NoClosingJoins(c, e);
    NoClosingJoins(c + e, f);
  }

  lemma ConfigureAckIsDocument()
    ensures IsDocument(SIM_CONFIGURE_ACK)
  {
    hide IsDocument, NoClosing;
    hide CONFIGURE_VERSION, CONFIGURE_SIZES, CONFIGURE_LIMITS, OPENING;
    VersionIsClean();
    SizesAreClean();
    LimitsAreClean();
    NoClosingJoins(CONFIGURE_VERSION, CONFIGURE_SIZES);
    NoClosingJoins(CONFIGURE_VERSION + CONFIGURE_SIZES, CONFIGURE_LIMITS);
    OpensDocument(CONFIGURE_VERSION + CONFIGURE_SIZES + CONFIGURE_LIMITS);
  }

  lemma LogIsDocument(handler: string)
    requires NoClosing(handler)
    ensures IsDocument(LogDocument(handler))
  {
    hide IsDocument;
    assert NoClosing("<log value=\"");
    assert NoClosing(CALLING);
    assert NoClosing("\" />");
    hide NoClosing;
    NoClosingJoins("<log value=\"", CALLING);
    NoClosingJoins("<log value=\"" + CALLING, handler);
    NoClosingJoins("<log value=\"" + CALLING + handler, "\" />");
    OpeningIsClean();
    NoClosingJoins(OPENING, "<log value=\"" + CALLING + handler + "\" />");
    assert OPENING + ("<log value=\"" + CALLING + handler + "\" />") == LogText(handler);
    MakesDocument(LogText(handler));
  }

  lemma HandlersAreClean(handler: string)
    requires handler in HANDLERS
    ensures NoClosing(handler) && |handler| <= 9
  {
  }
}

/** Programmer archives: the CPIO files that carry the images of a boot chain. */
module ProgrammerArchive {
  import opened Bytes
  import opened Options
  import opened Numerals
  import opened Images
  import opened Tokens
  import FlashmapLoad

  const HEADER_SIZE := 110
  const NAME_SIZE := 128
  const MAGIC: bytes := [48, 55, 48, 55, 48, 49]
  const TRAILER := "TRAILER!!!"
  const COLON: byte := 58
  const UINT32_MAX := 0xFFFF_FFFF

  // ----- The format

  /** The bytes that bring `n` to a multiple of 4. */
  function PadTo4(n: nat): (r: bytes)
    ensures (n + |r|) % 4 == 0 && |r| < 4
  {
    Zeros((4 - n % 4) % 4)
  }

  function AlignUp(n: nat): (r: nat)
    ensures n <= r < n + 4 && r % 4 == 0
  {
    n + (4 - n % 4) % 4
  }

  /** The fields before the file size: inode, mode, owner, group, links, time. */
  function Leading(ino: nat): (r: bytes)
    ensures |r| == 54
  {
    MAGIC + Hex(ino, 8) + Hex(33188, 8) + Hex(0, 8) + Hex(0, 8) + Hex(1, 8) + Hex(0, 8)
  }

  /** The device numbers. */
  function Devices(): (r: bytes)
    ensures |r| == 32
  {
    Hex(0, 8) + Hex(0, 8) + Hex(0, 8) + Hex(0, 8)
  }

  function Header(ino: nat, fileSize: nat, nameSize: nat): (r: bytes)
    ensures |r| == HEADER_SIZE
  {
    Leading(ino) + Hex(fileSize, 8) + Devices() + Hex(nameSize, 8) + Hex(0, 8)
  }

  /** An entry: header and name, then data, each padded. */
  function Entry(ino: nat, name: bytes, data: bytes): bytes {
    Header(ino, |data|, |name| + 1) + name + [0] + PadTo4(HEADER_SIZE + |name| + 1) + data + PadTo4(|data|)
  }

  /** The name of an image's entry: its id and its basename, cut to what the buffer holds. */
  function EntryName(id: nat, image: Image): bytes {
    var full := if image.name.Some? then Decimal(id) + [COLON] + Basename(image.name.value) else Decimal(id);
    full[..Min(|full|, NAME_SIZE - 1)]
  }

  /** The entries of the slots before `n`, and the number of the next entry. */
  function Entries(images: seq<Option<Image>>, n: nat): (r: Option<(bytes, nat)>)
    requires n <= |images|
  {
    if n <= 1 then Some(([], 1))
    else
      match Entries(images, n - 1)
      case None => None
      case Some((out, ino)) =>
        if images[n - 1].None? then Some((out, ino))
        else WithEntry(out, ino, n - 1, images[n - 1].value)
  }

  /** One more entry, unless its size does not fit the header. */
  function WithEntry(out: bytes, ino: nat, id: nat, image: Image): Option<(bytes, nat)>
  {
    if |image.content| > UINT32_MAX then None
    else Some((out + Entry(ino, EntryName(id, image), image.content), ino + 1))
  }

  predicate Carries(images: seq<Option<Image>>) { exists i :: 1 <= i < |images| && images[i].Some? }

  /** `sahara_archive_write`: the file, unless there is nothing to write or something too large. */
  function Archived(images: seq<Option<Image>>): Option<bytes> {
    if !Carries(images) then None
    else
      match Entries(images, |images|)
      case None => None
      case Some((out, ino)) => Some(out + Entry(ino, Text(TRAILER), []))
  }

  // ----- Writing

  class OutputFile {
    var data: bytes

    constructor ()
      ensures data == []
    {
      data := [];
    }

    method Write(more: bytes)
      modifies this
      ensures data == old(data) + more
    {
      data := data + more;
    }

    /** `sahara_archive_pad` */
    method Pad(len: nat)
      modifies this
      ensures data == old(data) + PadTo4(len)
    {
      var pad := AlignUp(len) - len;
      if pad != 0 {
        Write(Zeros(pad));
      }
    }

    /** `sahara_archive_write_entry` */
    method WriteEntry(ino: nat, name: bytes, content: bytes) returns (ok: bool)
      requires |name| < NAME_SIZE
      modifies this
      ensures ok <==> |content| <= UINT32_MAX
      ensures data == if ok then old(data) + Entry(ino, name, content) else old(data)
    {
      hide Header, PadTo4;
      if |content| > UINT32_MAX {
        return false;
      }
      Write(Header(ino, |content|, |name| + 1));
      Write(name + [0]);
      Pad(HEADER_SIZE + |name| + 1);
      Write(content);
      Pad(|content|);
      Grouped(old(data), Header(ino, |content|, |name| + 1), name, PadTo4(HEADER_SIZE + |name| + 1), content,
              PadTo4(|content|));
      return true;
    }
  }

  lemma Grouped(start: bytes, header: bytes, name: bytes, pad: bytes, data: bytes, end: bytes)
    ensures start + header + (name + [0]) + pad + data + end == start + (header + name + [0] + pad + data + end)
  {
  }

  /** `sahara_archive_write` */
  method SaharaArchiveWrite(images: seq<Option<Image>>) returns (file: Option<bytes>)
    requires |images| == IMAGE_SLOTS
    ensures file == Archived(images)
  {
    hide Entry, EntryName;
    var count := 0;
    for i := 1 to IMAGE_SLOTS
      invariant count > 0 <==> exists j :: 1 <= j < i && images[j].Some?
    {
      if images[i].Some? {
        count := count + 1;
      }
    }
    if count == 0 {
      return None;
    }
    var out := new OutputFile();
    var ino := 1;
    for i := 1 to IMAGE_SLOTS
      invariant Entries(images, i) == Some((out.data, ino))
    {
      if images[i].Some? {
        NameFits(i, images[i].value);
        var ok := out.WriteEntry(ino, EntryName(i, images[i].value), images[i].value.content);
        if !ok {
          EntriesFail(images, i + 1, IMAGE_SLOTS);
          return None;
        }
        ino := ino + 1;
      }
    }
    assert |Text(TRAILER)| == 10;
    var ok := out.WriteEntry(ino, Text(TRAILER), []);
    return Some(out.data);
  }

  lemma NameFits(id: nat, image: Image)
    ensures |EntryName(id, image)| < NAME_SIZE
  {
    hide Basename, Decimal;
  }

  lemma {:induction false} EntriesFail(images: seq<Option<Image>>, i: nat, n: nat)
    requires i <= n <= |images| && Entries(images, i).None?
    ensures Entries(images, n).None?
  {
    hide Entry, EntryName;
    if i < n { EntriesFail(images, i, n - 1); }
  }

  // ----- Reading

  datatype Outcome =
    | NotArchive                       // no archive at all
    | Decoded(images: ImageTable)      // every entry up to the trailer
    | Refused                          // an error; no images are left
    | Died                             // the program ends on a digit that is none
    | Overrun                          // data is read from behind the end of the archive

  /** Eight hexadecimal digits. */
  function HexField(b: bytes): Option<nat>
    requires |b| == 8
  {
    if forall i :: 0 <= i < 8 ==> IsDigitIn(b[i], 16) then Some(Value(b, 16)) else None
  }

  /** The name an entry gives its image: the token behind the id. */
  function SecondToken(name: bytes): Option<bytes> {
    match StrTok(name, 0, COLON)
    case None => None
    case Some((_, next)) =>
      match StrTok(name, next, COLON)
      case None => None
      case Some((token, _)) => Some(token)
  }

  /** An entry that was understood, or why not. */
  datatype Parsed = Last | Bad(why: Outcome) | Good(id: nat, name: Option<bytes>, content: bytes, next: nat)

  /** The entry at `p`. */
  function ParseEntry(blob: bytes, p: nat): (r: Parsed)
    ensures r.Good? ==> 0 < r.id < IMAGE_SLOTS && p < r.next && p < |blob|
    ensures r.Bad? ==> !r.why.Decoded?
  {
    if p + HEADER_SIZE > |blob| || blob[p..p + 6] != MAGIC then Bad(Refused)
    else
      var fileSize, nameSize := HexField(blob[p + 54..p + 62]), HexField(blob[p + 94..p + 102]);
      if fileSize.None? || nameSize.None? then Bad(Died)
      else ParseNamed(blob, p, fileSize.value, nameSize.value)
  }

  function ParseNamed(blob: bytes, p: nat, fileSize: nat, nameSize: nat): (r: Parsed)
    requires p + HEADER_SIZE <= |blob|
    ensures r.Good? ==> 0 < r.id < IMAGE_SLOTS && p < r.next
    ensures r.Bad? ==> !r.why.Decoded?
  {
    var q := p + HEADER_SIZE;
    if q + fileSize + nameSize > |blob| || nameSize == 0 || nameSize > NAME_SIZE || blob[q + nameSize - 1] != 0
        then Bad(Refused)
    else
      var name := FlashmapLoad.CString(blob[q..q + nameSize]);
      if name == Text(TRAILER) then Last
      else
        match StrTok(name, 0, COLON)
        case None => Bad(Refused)
        case Some((token, _)) =>
          var id := Strtoul(token, 0).0;
          var at := AlignUp(q + nameSize);
          if id == 0 || id >= IMAGE_SLOTS then Bad(Refused)
          else if fileSize == 0 then Good(id, SecondToken(name), [], at)
          else if at + fileSize > |blob| then Bad(Overrun)
          else Good(id, SecondToken(name), blob[at..at + fileSize], AlignUp(at + fileSize))
  }

  /** A slot filled; without a name in the entry, an earlier name stays. */
  function Fill(images: ImageTable, id: nat, name: Option<bytes>, content: bytes): (r: ImageTable)
    requires id < |images|
    ensures |r| == |images|
  {
    images[id :=
           Some(Image(if name.Some? then name else if images[id].Some? then images[id].value.name else None, content))]
  }

  /** The entries from `p` on. */
  function DecodeFrom(blob: bytes, p: nat, images: ImageTable): (r: Outcome)
    requires |images| == IMAGE_SLOTS
    ensures r.Decoded? ==> |r.images| == IMAGE_SLOTS
    decreases |blob| - p
  {
    match ParseEntry(blob, p)
    case Last => Decoded(images)
    case Bad(why) => why
    case Good(id, name, content, next) => DecodeFrom(blob, next, Fill(images, id, name, content))
  }

  /** `decode_programmer_archive` */
  function Decode(blob: bytes, images: ImageTable): (r: Outcome)
    requires |images| == IMAGE_SLOTS
    ensures r.Decoded? ==> |r.images| == IMAGE_SLOTS
  {
    if |blob| < HEADER_SIZE || blob[..6] != MAGIC then NotArchive else DecodeFrom(blob, 0, images)
  }

  /** `parse_ascii_hex32`; nothing when the program ends. */
  method ParseAsciiHex32(s: bytes) returns (x: Option<nat>)
    requires |s| == 8
    ensures x == HexField(s)
  {
    hide Value;
    var v: int := 0;
    NoDigits(s);
    for i := 0 to 8
      invariant forall k :: 0 <= k < i ==> IsDigitIn(s[k], 16)
      invariant v == Value(s[..i], 16)
    {
      if !IsDigitIn(s[i], 16) {
        return None;
      }
      ValueStep(s, i);
      if s[i] <= 57 {
        v := v * 16 + (s[i] - 48);
      } else {
        v := v * 16 + (10 + (if s[i] < 97 then s[i] + 32 else s[i]) - 97);
      }
    }
    assert s[..8] == s;
    return Some(v);
  }

  lemma NoDigits(s: bytes)
    ensures s[..0] == [] && Value([], 16) == 0
  {
  }

  lemma ValueStep(s: bytes, i: nat)
    requires i < |s| && forall k :: 0 <= k <= i ==> IsDigitIn(s[k], 16)
    ensures Value(s[..i + 1], 16) == 16 * Value(s[..i], 16) + DigitValue(s[i]).value
  {
    assert s[..i + 1][..i] == s[..i];
  }

  method ReadEntry(blob: bytes, p: nat) returns (entry: Parsed)
    ensures entry == ParseEntry(blob, p)
  {
    hide ParseNamed, HexField;
    if p + HEADER_SIZE > |blob| {
      return Bad(Refused);
    }
    if blob[p..p + 6] != MAGIC {
      return Bad(Refused);
    }
    var fileSize := ParseAsciiHex32(blob[p + 54..p + 62]);
    if fileSize.None? {
      return Bad(Died);
    }
    var nameSize := ParseAsciiHex32(blob[p + 94..p + 102]);
    if nameSize.None? {
      return Bad(Died);
    }
    return ParseNamed(blob, p, fileSize.value, nameSize.value);
  }

  /** `decode_programmer_archive`, filling the image table in place. */
  method DecodeProgrammerArchive(blob: bytes, images: array<Option<Image>>) returns (r: Outcome)
    requires images.Length == IMAGE_SLOTS
    modifies images
    ensures r == Decode(blob, old(images[..]))
    ensures r.Decoded? ==> images[..] == r.images
    ensures r == NotArchive ==> images[..] == old(images[..])
    ensures r == Refused ==> images[..] == NoImages()
  {
    hide ParseEntry;
    if |blob| < HEADER_SIZE || blob[..6] != MAGIC {
      return NotArchive;
    }
    var p := 0;
    var more := true;
    r := NotArchive;
    while more
      invariant more ==> DecodeFrom(blob, 0, old(images[..])) == DecodeFrom(blob, p, images[..])
      invariant !more ==> DecodeFrom(blob, 0, old(images[..])) == r && !r.Decoded? && r != NotArchive
      decreases more, |blob| - p
    {
      var entry := ReadEntry(blob, p);
      match entry {
        case Last => return Decoded(images[..]);
        case Bad(why) =>
          r := why;
          more := false;
          NeverNot(blob, p);
        case Good(id, name, content, next) =>
          var kept := if name.Some? then name else if images[id].Some? then images[id].value.name else None;
          ghost var before := images[..];
          images[id] := Some(Image(kept, content));
          assert images[..] == Fill(before, id, name, content);
          p := next;
      }
    }
    if r == Refused {
      for i := 0 to IMAGE_SLOTS
        invariant forall j :: 0 <= j < i ==> images[j] == None
      {
        images[i] := None;
      }
      assert images[..] == NoImages();
    }
  }

  lemma NeverNot(blob: bytes, p: nat)
    ensures ParseEntry(blob, p).Bad? ==> ParseEntry(blob, p).why != NotArchive
  {
    hide StrTok, HexField;
  }
}

/** Reading a programmer archive gives back the images that were written. */
module ArchiveTheorems {
  import opened Bytes
  import opened Options
  import opened Numerals
  import opened Images
  import opened ProgrammerArchive
  import opened Tokens
  import FlashmapLoad

  // ----- Pieces of a text

  /** `part` is in `s` at `p`. */
  ghost predicate At(s: bytes, p: nat, part: bytes) { p + |part| <= |s| && s[p..p + |part|] == part }

  lemma AtSplits(s: bytes, p: nat, a: bytes, b: bytes)
    requires At(s, p, a + b)
    ensures At(s, p, a) && At(s, p + |a|, b)
  {
    var ab := a + b;
    assert s[p..p + |a|] == s[p..p + |ab|][..|a|] == ab[..|a|] == a;
    assert s[p + |a|..p + |ab|] == s[p..p + |ab|][|a|..] == ab[|a|..] == b;
  }

  // ----- Headers

  lemma Power16Of8()
    ensures Power16(8) == 0x1_0000_0000
  {
    assert Power16(4) == 0x10000;
    assert Power16(6) == 0x100_0000;
  }

  lemma HexFieldReadsBack(n: nat)
    requires n <= UINT32_MAX
    ensures HexField(Hex(n, 8)) == Some(n)
  {
    hide Value, Power16;
    Power16Of8();
    ValueOfHex(n, 8);
  }

  lemma HeaderFields(s: bytes, p: nat, ino: nat, fileSize: nat, nameSize: nat)
    requires At(s, p, Header(ino, fileSize, nameSize)) && fileSize <= UINT32_MAX && nameSize <= UINT32_MAX
    ensures p + HEADER_SIZE <= |s| && s[p..p + 6] == MAGIC
    ensures HexField(s[p + 54..p + 62]) == Some(fileSize) && HexField(s[p + 94..p + 102]) == Some(nameSize)
  {
    hide Leading, Devices, HexField, Hex;
    var a, b, c, d, e := Leading(ino), Hex(fileSize, 8), Devices(), Hex(nameSize, 8), Hex(0, 8);
    AtSplits(s, p, a + b + c + d, e);
    AtSplits(s, p, a + b + c, d);
    AtSplits(s, p, a + b, c);
    AtSplits(s, p, a, b);
    HexFieldReadsBack(fileSize);
    HexFieldReadsBack(nameSize);
    assert s[p..p + 6] == MAGIC by {
      assert Leading(ino)[..6] == MAGIC by { LeadingMagic(ino); }
      assert s[p..p + 6] == s[p..p + 54][..6];
    }
  }

  lemma LeadingMagic(ino: nat)
    ensures Leading(ino)[..6] == MAGIC
  {
    hide Hex;
  }

  // ----- Entries

  /** The parts of an entry, where they stand. */
  lemma EntryParts(s: bytes, p: nat, ino: nat, name: bytes, data: bytes)
    requires At(s, p, Entry(ino, name, data)) && p % 4 == 0
    ensures At(s, p, Header(ino, |data|, |name| + 1))
    ensures At(s, p + HEADER_SIZE, name + [0])
    ensures AlignUp(p + HEADER_SIZE + |name| + 1) + |data| <= |s|
    ensures At(s, AlignUp(p + HEADER_SIZE + |name| + 1), data)
    ensures AlignUp(AlignUp(p + HEADER_SIZE + |name| + 1) + |data|) == p + |Entry(ino, name, data)|
  {
    hide Header;
    var h, n, x, y := Header(ino, |data|, |name| + 1), name + [0], PadTo4(HEADER_SIZE + |name| + 1), PadTo4(|data|);
    assert Entry(ino, name, data) == h + n + x + data + y by { assert h + name + [0] == h + n; }
    AtSplits(s, p, h + n + x + data, y);
    AtSplits(s, p, h + n + x, data);
    AtSplits(s, p, h + n, x);
    AtSplits(s, p, h, n);
    Aligned(p + HEADER_SIZE + |name| + 1, HEADER_SIZE + |name| + 1, p);
    Aligned(p + |h + n + x| + |data|, |data|, p + |h + n + x|);
  }

  /**
   * An entry of the "newc" format: magic, inode, the mode of a plain file that all may read, one link, the size at byte
   * 54 and the length of the name at byte 94, the name with a NUL at byte 110, and the data, each padded to 4.
   */
  predicate LaidOut(e: bytes, ino: nat, name: bytes, data: bytes) {
    var at := AlignUp(|name| + 111);
    && |e| == AlignUp(at + |data|)
    && e[..6] == Text("070701") && HexField(e[6..14]) == Some(ino) && e[14..22] == Text("000081a4")
    && e[22..30] == e[30..38] == e[46..54] == Text("00000000") && e[38..46] == Text("00000001")
    && HexField(e[54..62]) == Some(|data|) && HexField(e[94..102]) == Some(|name| + 1)
    && e[110..110 + |name|] == name && e[110 + |name|] == 0 && e[at..at + |data|] == data
  }

  lemma EntryLayout(ino: nat, name: bytes, data: bytes)
    requires ino <= UINT32_MAX && |data| <= UINT32_MAX && |name| < UINT32_MAX
    ensures LaidOut(Entry(ino, name, data), ino, name, data)
  {
    hide Header, HexField, Entry, Hex;
    var e, n := Entry(ino, name, data), name + [0];
    assert e[0..|e|] == e;
    assert At(e, 0, e);
    EntryParts(e, 0, ino, name, data);
    HeaderFields(e, 0, ino, |data|, |name| + 1);
    MagicText();
    InodeAndMode(e, ino, |data|, |name| + 1);
    assert e[110..110 + |n|] == n;
    NameInFront(e, name);
  }

  lemma NameInFront(e: bytes, name: bytes)
    requires 111 + |name| <= |e| && e[110..111 + |name|] == name + [0]
    ensures e[110..110 + |name|] == name && e[110 + |name|] == 0
  {
    var n := e[110..111 + |name|];
    assert n[..|name|] == e[110..110 + |name|] && n[|name|] == e[110 + |name|];
  }

  lemma MagicText()
    ensures MAGIC == Text("070701")
  {
  }

  lemma FieldTexts()
    ensures Hex(33188, 8) == Text("000081a4") && Hex(0, 8) == Text("00000000") && Hex(1, 8) == Text("00000001")
  {
    hide Hex;
    SmallDigits();
    ModeDigits();
  }

  lemma SmallDigits()
    ensures Hex(0, 8) == [48, 48, 48, 48, 48, 48, 48, 48] && Hex(1, 8) == [48, 48, 48, 48, 48, 48, 48, 49]
  {
    hide Hex;
    HexGrows(0, 0);
    HexGrows(0, 1);
    HexGrows(0, 2);
    HexGrows(0, 3);
    HexGrows(0, 4);
    HexGrows(0, 5);
    HexGrows(0, 6);
    HexGrows(0, 7);
    HexGrows(1, 7);
  }

  lemma ModeDigits()
    ensures Hex(33188, 8) == [48, 48, 48, 48, 56, 49, 97, 52]
  {
    hide Hex;
    HexGrows(0, 0);
    HexGrows(0, 1);
    HexGrows(0, 2);
    HexGrows(0, 3);
    HexGrows(8, 4);
    HexGrows(0x81, 5);
    HexGrows(0x81a, 6);
    HexGrows(0x81a4, 7);
  }

  lemma HexGrows(n: nat, width: nat)
    ensures Hex(n, width + 1) == Hex(n / 16, width) + [HexDigit(n % 16)]
  {
  }

  lemma InodeAndMode(s: bytes, ino: nat, fileSize: nat, nameSize: nat)
    requires At(s, 0, Header(ino, fileSize, nameSize)) && ino <= UINT32_MAX
    ensures |s| >= 110 && HexField(s[6..14]) == Some(ino) && s[14..22] == Text("000081a4")
    ensures s[22..30] == s[30..38] == s[46..54] == Text("00000000") && s[38..46] == Text("00000001")
  {
    hide HexField, Hex, Text;
    var h := Header(ino, fileSize, nameSize);
    assert h[6..14] == Hex(ino, 8);
    assert h[14..22] == Hex(33188, 8) && h[22..30] == h[30..38] == h[46..54] == Hex(0, 8) && h[38..46] == Hex(1, 8);
    assert s[0..|h|] == h;
    assert s[0..|h|][6..14] == s[6..14] && s[0..|h|][14..22] == s[14..22] && s[0..|h|][22..30] == s[22..30];
    assert s[0..|h|][30..38] == s[30..38] && s[0..|h|][38..46] == s[38..46] && s[0..|h|][46..54] == s[46..54];
    HexFieldReadsBack(ino);
    FieldTexts();
  }

  /** Both rules of alignment agree. */
  lemma Aligned(at: nat, n: nat, base: nat)
    requires at == base + n && base % 4 == 0
    ensures AlignUp(at) == at + |PadTo4(n)|
  {
  }

  /** A name without a NUL, behind which one follows. */
  lemma NameReads(s: bytes, q: nat, name: bytes)
    requires At(s, q, name + [0]) && NoNul(name)
    ensures FlashmapLoad.CString(s[q..q + |name| + 1]) == name && s[q + |name|] == 0
  {
    assert s[q..q + |name| + 1] == name + [0];
    Terminated(name);
  }

  lemma {:induction false} Terminated(name: bytes)
    requires NoNul(name)
    ensures FlashmapLoad.CString(name + [0]) == name
  {
    if |name| > 0 {
      assert (name + [0])[1..] == name[1..] + [0];
      Terminated(name[1..]);
    }
  }

  lemma AlignedUp(n: nat)
    ensures n <= AlignUp(n)
  {
  }

  /** An entry is understood as it was written. */
  lemma EntryReads(s: bytes, p: nat, ino: nat, name: bytes, data: bytes)
    requires At(s, p, Entry(ino, name, data)) && p % 4 == 0
    requires NoNul(name) && |name| < NAME_SIZE && |data| <= UINT32_MAX
    ensures ParseEntry(s, p) ==
            if name == Text(TRAILER) then Last
            else if StrTok(name, 0, COLON).None? then Bad(Refused)
            else
              var id := Strtoul(StrTok(name, 0, COLON).value.0, 0).0;
              if id == 0 || id >= IMAGE_SLOTS then Bad(Refused)
              else Good(id, SecondToken(name), data, p + |Entry(ino, name, data)|)
  {
    hide Header, HexField, StrTok, SecondToken, Strtoul, Entry, FlashmapLoad.CString, Text, AlignUp, ParseNamed;
    EntryParts(s, p, ino, name, data);
    HeaderFields(s, p, ino, |data|, |name| + 1);
    NameReads(s, p + HEADER_SIZE, name);
    NamedReads(s, p, name, data);
  }

  /** An entry behind its header. */
  lemma NamedReads(s: bytes, p: nat, name: bytes, data: bytes)
    requires p + HEADER_SIZE + |name| + 1 <= |s| && |name| < NAME_SIZE
    requires FlashmapLoad.CString(s[p + HEADER_SIZE..p + HEADER_SIZE + |name| + 1]) == name
    requires s[p + HEADER_SIZE + |name|] == 0
    requires var at := AlignUp(p + HEADER_SIZE + |name| + 1);
             at + |data| <= |s| && s[at..at + |data|] == data
    ensures ParseNamed(s, p, |data|, |name| + 1) ==
            if name == Text(TRAILER) then Last
            else if StrTok(name, 0, COLON).None? then Bad(Refused)
            else
              var id := Strtoul(StrTok(name, 0, COLON).value.0, 0).0;
              if id == 0 || id >= IMAGE_SLOTS then Bad(Refused)
              else Good(id, SecondToken(name), data, AlignUp(AlignUp(p + HEADER_SIZE + |name| + 1) + |data|))
  {
    hide StrTok, SecondToken, Strtoul, FlashmapLoad.CString, Text, AlignUp;
    var q := p + HEADER_SIZE;
    AlignedUp(q + |name| + 1);
    assert q + |data| + (|name| + 1) <= |s|;
    assert s[q..q + (|name| + 1)] == s[q..q + |name| + 1];
  }

  // ----- Names

  /** The id is the first token, and what follows the colon the second. */
  lemma IdComesFirst(digits: bytes, rest: bytes)
    requires |digits| > 0 && COLON !in digits
    ensures StrTok(digits, 0, COLON) == Some((digits, |digits|))
    ensures StrTok(digits + [COLON] + rest, 0, COLON) == Some((digits, |digits| + 1))
  {
    assert digits[0] in digits;
    var s := digits + [COLON] + rest;
    assert s[0..|digits|] == digits && digits[0..|digits|] == digits;
    TokenRuns(s, 0, |digits|, COLON);
    TokenRuns(digits, 0, |digits|, COLON);
  }

  lemma DigitsOnly(n: nat)
    ensures COLON !in Decimal(n) && NoNul(Decimal(n))
  {
    hide Decimal;
  }

  /** The name that an image comes back with. */
  function StoredName(id: nat, image: Image): Option<bytes> { SecondToken(EntryName(id, image)) }

  lemma ShortId(id: nat)
    requires id < IMAGE_SLOTS
    ensures 1 <= |Decimal(id)| <= 3
  {
    if id >= 10 { assert |Decimal(id / 10)| <= 2; }
  }

  /** The name's first token is the id. */
  lemma NameHasId(id: nat, image: Image)
    requires 0 < id < IMAGE_SLOTS
    ensures StrTok(EntryName(id, image), 0, COLON).Some?
            && Strtoul(StrTok(EntryName(id, image), 0, COLON).value.0, 0).0 == id
    ensures EntryName(id, image) != Text(TRAILER)
  {
    hide Decimal, Basename, StrTok, Strtoul;
    var d, name := Decimal(id), EntryName(id, image);
    ShortId(id);
    DigitsOnly(id);
    StrtoulOfDecimal(id, [], 0);
    assert d + [] == d;
    if image.name.Some? {
      var full := d + [COLON] + Basename(image.name.value);
      assert name == d + [COLON] + full[|d| + 1..|name|];
      IdComesFirst(d, full[|d| + 1..|name|]);
    } else {
      assert name == d;
      IdComesFirst(d, []);
    }
    assert name[0] == d[0] && IsDigit(d[0]);
    assert Text(TRAILER)[0] == 84;
  }

  /** A name comes back exactly when it has no colon and fits; where there was none, none comes back. */
  lemma StoredNameIff(id: nat, path: bytes, content: bytes)
    requires 0 < id < 128
    ensures StoredName(id, Image(Some(path), content)) == Some(Basename(path))
        <==> 58 !in Basename(path) && |Decimal(id)| + 1 + |Basename(path)| < 128
    ensures StoredName(id, Image(None, content)) == None
  {
    hide Decimal, Basename, StrTok;
    var d, base, name := Decimal(id), Basename(path), EntryName(id, Image(Some(path), content));
    ShortId(id);
    DigitsOnly(id);
    WithoutName(id, content);
    var full := d + [COLON] + base;
    var rest := full[|d| + 1..|name|];
    assert name == d + [COLON] + rest;
    IdComesFirst(d, rest);
    SecondIs(name, |d| + 1, rest);
    if |full| < NAME_SIZE {
      assert rest == base;
    }
  }

  /** The token behind `at`: nothing longer than what is there, and all of it exactly without colons. */
  lemma SecondIs(name: bytes, at: nat, rest: bytes)
    requires at <= |name| && name[at..] == rest
    ensures StrTok(name, at, COLON).Some? ==>
              |StrTok(name, at, COLON).value.0| <= |rest| && COLON !in StrTok(name, at, COLON).value.0
    ensures rest != [] ==>
              (StrTok(name, at, COLON).Some? && StrTok(name, at, COLON).value.0 == rest <==> COLON !in rest)
  {
    if COLON !in rest && rest != [] {
      assert name[at] == rest[0] && rest[0] in rest;
      assert name[at..|name|] == rest;
      TokenRuns(name, at, |name|, COLON);
    }
  }

  lemma WithoutName(id: nat, content: bytes)
    requires 0 < id < IMAGE_SLOTS
    ensures StoredName(id, Image(None, content)) == None
  {
    hide Decimal, TokenEnd;
    ShortId(id);
    DigitsOnly(id);
    assert EntryName(id, Image(None, content)) == Decimal(id);
    IdComesFirst(Decimal(id), []);
  }

  // ----- The whole archive

  /** What comes back for a slot. */
  function StoredImage(images: seq<Option<Image>>, i: nat): Option<Image>
    requires i < |images|
  {
    if i == 0 || images[i].None? then None else Some(Image(StoredName(i, images[i].value), images[i].value.content))
  }

  /** The table of the slots before `n`. */
  function StoredTable(images: seq<Option<Image>>, n: nat): (t: ImageTable)
    requires |images| == IMAGE_SLOTS
    ensures |t| == IMAGE_SLOTS
  {
    seq(IMAGE_SLOTS, i requires 0 <= i < IMAGE_SLOTS => if i < n then StoredImage(images, i) else None)
  }

  lemma EntryNameIsString(id: nat, image: Image)
    requires image.name.Some? ==> NoNul(image.name.value)
    ensures NoNul(EntryName(id, image)) && |EntryName(id, image)| < NAME_SIZE
  {
    hide Decimal, Basename;
    DigitsOnly(id);
    if image.name.Some? { BasenameIsString(image.name.value); }
  }

  lemma EntryIsAligned(ino: nat, name: bytes, data: bytes)
    ensures |Entry(ino, name, data)| % 4 == 0 && |Entry(ino, name, data)| >= HEADER_SIZE
  {
    hide Header;
    var a, b := HEADER_SIZE + |name| + 1 + |PadTo4(HEADER_SIZE + |name| + 1)|, |data| + |PadTo4(|data|)|;
    assert |Entry(ino, name, data)| == a + b;
  }

  lemma FirstSlot(images: seq<Option<Image>>, n: nat)
    requires |images| == IMAGE_SLOTS && n <= 1
    ensures StoredTable(images, n) == NoImages()
  {
    hide StoredName;
  }

  lemma NoImageThere(images: seq<Option<Image>>, i: nat)
    requires |images| == IMAGE_SLOTS && i < IMAGE_SLOTS && images[i].None?
    ensures StoredTable(images, i + 1) == StoredTable(images, i)
  {
    hide StoredName;
  }

  /** Decoding gets past the entries of the slots before `n`, and has them in the table. */
  lemma {:induction false} EntriesDecode(s: bytes, images: seq<Option<Image>>, n: nat)
    requires |images| == IMAGE_SLOTS && StringNames(images) && n <= IMAGE_SLOTS
    requires Entries(images, n).Some? && At(s, 0, Entries(images, n).value.0)
    ensures |Entries(images, n).value.0| % 4 == 0
    ensures DecodeFrom(s, 0, NoImages()) == DecodeFrom(s, |Entries(images, n).value.0|, StoredTable(images, n))
  {
    hide Entry, EntryName, ParseEntry, StoredImage;
    if n <= 1 {
      FirstSlot(images, n);
    } else if images[n - 1].None? {
      EntriesDecode(s, images, n - 1);
      NoImageThere(images, n - 1);
    } else {
      var (out, ino) := Entries(images, n - 1).value;
      var e := Entry(ino, EntryName(n - 1, images[n - 1].value), images[n - 1].value.content);
      AtSplits(s, 0, out, e);
      EntriesDecode(s, images, n - 1);
      EntryDecodes(s, |out|, ino, images, n - 1);
      EntryIsAligned(ino, EntryName(n - 1, images[n - 1].value), images[n - 1].value.content);
    }
  }

  lemma EntryDecodes(s: bytes, p: nat, ino: nat, images: seq<Option<Image>>, i: nat)
    requires |images| == IMAGE_SLOTS && StringNames(images) && 0 < i < IMAGE_SLOTS && images[i].Some?
    requires |images[i].value.content| <= UINT32_MAX && p % 4 == 0
    requires At(s, p, Entry(ino, EntryName(i, images[i].value), images[i].value.content))
    ensures DecodeFrom(s, p, StoredTable(images, i))
         == DecodeFrom(s, p + |Entry(ino, EntryName(i, images[i].value), images[i].value.content)|,
                       StoredTable(images, i + 1))
  {
    hide Entry, EntryName, ParseEntry, StrTok, Strtoul, Text;
    var image := images[i].value;
    EntryNameIsString(i, image);
    NameHasId(i, image);
    EntryReads(s, p, ino, EntryName(i, image), image.content);
    assert Fill(StoredTable(images, i), i, StoredName(i, image), image.content) == StoredTable(images, i + 1);
  }

  /**
   * An archive that was written is decoded to the images that were in its slots from 1 on:
   * the same ids, the same contents, and the names that fit the entries.
   */
  lemma ArchiveRoundTrip(images: ImageTable)
    requires |images| == 128 && StringNames(images) && Archived(images).Some?
    ensures Decode(Archived(images).value, NoImages()) == Decoded(StoredTable(images, 128))
  {
    hide Entry, ParseEntry, StrTok, Strtoul, Carries, Entries, StoredTable, Text, DecodeFrom;
    var (out, ino) := Entries(images, IMAGE_SLOTS).value;
    var e := Entry(ino, Text(TRAILER), []);
    var s := out + e;
    assert At(s, 0, out + e) by { assert s[0..|s|] == s; }
    AtSplits(s, 0, out, e);
    EntriesDecode(s, images, IMAGE_SLOTS);
    TrailerDecodes(s, |out|, ino, StoredTable(images, IMAGE_SLOTS));
    StartsWithMagic(s, ino, images);
  }

  lemma TrailerDecodes(s: bytes, p: nat, ino: nat, table: ImageTable)
    requires |table| == IMAGE_SLOTS && p % 4 == 0 && At(s, p, Entry(ino, Text(TRAILER), []))
    ensures DecodeFrom(s, p, table) == Decoded(table)
  {
    hide Entry, ParseEntry, StrTok, Strtoul;
    assert |Text(TRAILER)| == 10 && NoNul(Text(TRAILER));
    EntryReads(s, p, ino, Text(TRAILER), []);
  }

  lemma StartsWithMagic(s: bytes, ino: nat, images: ImageTable)
    requires |images| == IMAGE_SLOTS && Entries(images, IMAGE_SLOTS).Some?
    requires s == Entries(images, IMAGE_SLOTS).value.0 + Entry(ino, Text(TRAILER), [])
    ensures |s| >= HEADER_SIZE && s[..6] == MAGIC
  {
    hide Entry, Entries, Text;
    EntryStarts(ino, Text(TRAILER), []);
    EntriesStart(images, IMAGE_SLOTS);
    var out := Entries(images, IMAGE_SLOTS).value.0;
    if out == [] { assert s == Entry(ino, Text(TRAILER), []); } else { assert s[..6] == out[..6]; }
  }

  lemma EntryStarts(ino: nat, name: bytes, data: bytes)
    ensures |Entry(ino, name, data)| >= HEADER_SIZE && Entry(ino, name, data)[..6] == MAGIC
  {
    hide Leading, Hex, PadTo4;
    LeadingMagic(ino);
    var h := Header(ino, |data|, |name| + 1);
    assert h[..6] == Leading(ino)[..6];
    assert Entry(ino, name, data)[..6] == h[..6];
  }

  lemma {:induction false} EntriesStart(images: ImageTable, n: nat)
    requires |images| == IMAGE_SLOTS && n <= IMAGE_SLOTS && Entries(images, n).Some?
    ensures var out := Entries(images, n).value.0;
            out == [] || (|out| >= HEADER_SIZE && out[..6] == MAGIC)
  {
    hide Entry, EntryName;
    if n > 1 {
      EntriesStart(images, n - 1);
      if images[n - 1].Some? {
        var (out, ino) := Entries(images, n - 1).value;
        var e := Entry(ino, EntryName(n - 1, images[n - 1].value), images[n - 1].value.content);
        EntryStarts(ino, EntryName(n - 1, images[n - 1].value), images[n - 1].value.content);
        if out == [] { assert out + e == e; } else { assert (out + e)[..6] == out[..6]; }
      }
    }
  }

  /** Writing an archive and reading it back into an empty table. */
  method WriteThenDecode(images: seq<Option<Image>>, table: array<Option<Image>>) returns (ok: bool)
    requires |images| == IMAGE_SLOTS && StringNames(images)
    requires table.Length == IMAGE_SLOTS && table[..] == NoImages()
    modifies table
    ensures ok <==> Archived(images).Some?
    ensures ok ==> forall i :: 0 <= i < IMAGE_SLOTS ==> table[i] == StoredImage(images, i)
  {
    hide Archived, Decode, StoredImage;
    var file := SaharaArchiveWrite(images);
    if file.None? {
      return false;
    }
    var r := DecodeProgrammerArchive(file.value, table);
    ArchiveRoundTrip(images);
    assert table[..] == StoredTable(images, IMAGE_SLOTS);
    return true;
  }

  // ----- Reading behind the end

  /** The entry at `q` is one of those that reading gets to from `p`. */
  ghost predicate Reached(blob: bytes, p: nat, q: nat)
    decreases |blob| - p
  {
    p == q || (ParseEntry(blob, p).Good? && Reached(blob, ParseEntry(blob, p).next, q))
  }

  /** The text of an entry's name, up to its first NUL. */
  function NameAt(blob: bytes, q: nat, nameSize: nat): bytes
    requires q + HEADER_SIZE + nameSize <= |blob|
  {
    FlashmapLoad.CString(blob[q + HEADER_SIZE..q + HEADER_SIZE + nameSize])
  }

  /** A name that is terminated and starts with the id of an image. */
  predicate NamesImage(blob: bytes, q: nat, nameSize: nat)
    requires q + HEADER_SIZE + nameSize <= |blob|
  {
    && 0 < nameSize <= NAME_SIZE && blob[q + HEADER_SIZE + nameSize - 1] == 0
    && NameAt(blob, q, nameSize) != Text(TRAILER)
    && StrTok(NameAt(blob, q, nameSize), 0, COLON).Some?
    && 0 < Strtoul(StrTok(NameAt(blob, q, nameSize), 0, COLON).value.0, 0).0 < IMAGE_SLOTS
  }

  /**
   * An entry for an image, with some data, whose name and data fit the file as they are
   * counted there, with fewer bytes behind them than aligning the data skips.
   */
  predicate CutShort(blob: bytes, q: nat) {
    && q + HEADER_SIZE <= |blob| && blob[q..q + 6] == MAGIC
    && HexField(blob[q + 54..q + 62]).Some? && HexField(blob[q + 94..q + 102]).Some?
    && var fileSize, nameSize := HexField(blob[q + 54..q + 62]).value, HexField(blob[q + 94..q + 102]).value;
       var nameEnd := q + HEADER_SIZE + nameSize;
       && nameEnd + fileSize <= |blob| && NamesImage(blob, q, nameSize)
       && 0 < fileSize && |blob| - (nameEnd + fileSize) < AlignUp(nameEnd) - nameEnd
  }

  lemma EntryOverruns(blob: bytes, q: nat)
    ensures ParseEntry(blob, q) == Bad(Overrun) <==> CutShort(blob, q)
  {
    hide StrTok, Strtoul, HexField, FlashmapLoad.CString, Text;
  }

  /** Reading goes behind the end of the file exactly when it gets to an entry that is cut short there. */
  lemma OverrunIff(blob: bytes, images: ImageTable)
    requires |images| == IMAGE_SLOTS
    ensures Decode(blob, images).Overrun?
        <==> |blob| >= HEADER_SIZE && blob[..6] == MAGIC && exists q :: Reached(blob, 0, q) && CutShort(blob, q)
  {
    hide DecodeFrom, CutShort;
    OverrunFrom(blob, 0, images);
  }

  lemma {:induction false} OverrunFrom(blob: bytes, p: nat, images: ImageTable)
    requires |images| == IMAGE_SLOTS
    ensures DecodeFrom(blob, p, images).Overrun? <==> exists q :: Reached(blob, p, q) && CutShort(blob, q)
    decreases |blob| - p
  {
    hide ParseEntry, CutShort, Fill;
    EntryOverruns(blob, p);
    var e := ParseEntry(blob, p);
    if e.Good? {
      OverrunFrom(blob, e.next, Fill(images, e.id, e.name, e.content));
      if DecodeFrom(blob, p, images).Overrun? {
        var q :| Reached(blob, e.next, q) && CutShort(blob, q);
        assert Reached(blob, p, q);
      }
    } else {
      if CutShort(blob, p) { assert Reached(blob, p, p); }
    }
  }

  /** One entry of 115 bytes, with a name of four and one byte of data: the data is looked for at byte 116. */
  lemma OverrunExample(b: byte, images: ImageTable)
    requires |images| == IMAGE_SLOTS
    ensures Decode(Header(1, 1, 4) + [49, 58, 97, 0] + [b], images) == Overrun
  {
    hide Header, HexField, StrTok, Strtoul, FlashmapLoad.CString, Text, ParseEntry;
    var header, name := Header(1, 1, 4), [49, 58, 97];
    var blob := header + (name + [0]) + [b];
    assert blob == header + [49, 58, 97, 0] + [b];
    assert At(blob, 0, header) && blob[0..6] == blob[..6] && At(blob, 110, name + [0]);
    HeaderFields(blob, 0, 1, 1, 4);
    NameReads(blob, 110, name);
    FirstImage();
    EntryOverruns(blob, 0);
  }

  /** The same without data, in 114 bytes: nothing is read, and the next header is missed. */
  lemma NoDataExample(images: ImageTable)
    requires |images| == IMAGE_SLOTS
    ensures Decode(Header(1, 0, 4) + [49, 58, 97, 0], images) == Refused
  {
    hide Header, HexField, StrTok, Strtoul, FlashmapLoad.CString, Text, SecondToken;
    var header, name := Header(1, 0, 4), [49, 58, 97];
    var blob := header + (name + [0]);
    assert blob == header + [49, 58, 97, 0];
    assert At(blob, 0, header) && blob[0..6] == blob[..6] && At(blob, 110, name + [0]);
    HeaderFields(blob, 0, 1, 0, 4);
    NameReads(blob, 110, name);
    FirstImage();
    var e := ParseEntry(blob, 0);
    assert e.Good? && e.next == 116;
    assert ParseEntry(blob, 116) == Bad(Refused);
    assert DecodeFrom(blob, 116, Fill(images, e.id, e.name, e.content)) == Refused;
  }

  lemma FirstImage()
    ensures [49, 58, 97] != Text(TRAILER)
    ensures StrTok([49, 58, 97], 0, COLON).Some? && Strtoul(StrTok([49, 58, 97], 0, COLON).value.0, 0).0 == 1
  {
    var d, rest: bytes := [49], [97];
    assert [49, 58, 97] == d + [COLON] + rest;
    assert Decimal(1) == d;
    IdComesFirst(d, rest);
    assert d + [] == d;
    StrtoulOfDecimal(1, [], 0);
    assert |Text(TRAILER)| == 10;
  }

  // ----- When there is a file

  function Present(images: ImageTable, n: nat): nat
    requires n <= |images|
  {
    if n <= 1 then 0 else Present(images, n - 1) + if images[n - 1].Some? then 1 else 0
  }

  predicate Storable(image: Option<Image>) { image.Some? ==> |image.value.content| < 0x1_0000_0000 }

  /** Entries are numbered from 1 on without gaps, and there are some exactly unless an image is too large. */
  lemma {:induction false} EntriesIff(images: ImageTable, n: nat)
    requires n <= |images|
    ensures Entries(images, n).Some? <==> forall i :: 1 <= i < n ==> Storable(images[i])
    ensures Entries(images, n).Some? ==> Entries(images, n).value.1 == 1 + Present(images, n)
  {
    hide Entry, EntryName;
    if n > 1 { EntriesIff(images, n - 1); }
  }

  /** An archive is written exactly when there is an image in slots 1 to 127 and none of them is too large. */
  lemma ArchivedIff(images: ImageTable)
    requires |images| == 128
    ensures Archived(images).Some?
        <==> (exists i :: 1 <= i < 128 && images[i].Some?) && forall i :: 1 <= i < 128 ==> Storable(images[i])
  {
    hide Entry, Entries;
    EntriesIff(images, 128);
  }
}

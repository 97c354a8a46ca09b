/** The members of a package: nothing that was added is ever overwritten while operations are packed. */
module PackagedMembers {
  import opened Bytes
  import opened Options
  import opened Files
  import opened Programming
  import opened Ops
  import opened Images
  import opened ZipperSpec
  import opened PackagedTags
  import opened Numerals
  import Commands

  ghost predicate Extends(a: map<bytes, bytes>, b: map<bytes, bytes>) {
    forall n :: n in a ==> n in b && b[n] == a[n]
  }

  ghost predicate NamesAgree(k: Package) { forall n :: n in k.members <==> n in k.names }

  predicate RenameHolds(files: map<bytes, bytes>, k: Package, r: Rename) {
    r.source in files && r.zipName in k.members && k.members[r.zipName] == files[r.source] && IsStorageName(r.zipName)
  }

  predicate RenamesHold(files: map<bytes, bytes>, k: Package) {
    forall i :: 0 <= i < |k.renames| ==> RenameHolds(files, k, k.renames[i])
  }

  /** A name that starts like a storage's, so not with an f. */
  predicate IsStorageName(name: bytes) { |name| > 0 && name[0] != 102 }

  predicate StorageNames(k: Package) { forall i :: 0 <= i < |k.names| ==> IsStorageName(k.names[i]) }

  /** What every packed operation keeps. */
  ghost predicate Sound(files: map<bytes, bytes>, k: Package) {
    NamesAgree(k) && RenamesHold(files, k) && StorageNames(k)
  }

  lemma MemoryStart(s: StorageType)
    requires s != Unknown
    ensures IsStorageName(Memory(s))
  {
  }

  /** A new name leaves every member as it is. */
  lemma AddKeeps(files: map<bytes, bytes>, k: Package, name: bytes, data: bytes)
    requires Sound(files, k) && name !in k.names && IsStorageName(name)
    ensures Sound(files, k.Add(name, data)) && Extends(k.members, k.Add(name, data).members)
    ensures name in k.Add(name, data).members && k.Add(name, data).members[name] == data
  {
    hide IsStorageName;
    var k' := k.Add(name, data);
    assert Extends(k.members, k'.members);
    forall i | 0 <= i < |k'.renames| ensures RenameHolds(files, k', k'.renames[i]) {
      assert RenameHolds(files, k, k.renames[i]);
    }
  }

  /** What a registered image becomes. */
  ghost predicate Registered(files: map<bytes, bytes>, k: Package, k': Package, op: ProgramOp, name: bytes)
    requires op.filename.Some?
  {
    && Sound(files, k') && Extends(k.members, k'.members)
    && name in k'.members && IsStorageName(name) && KnownChunk(op)
    && (!op.sparse ==> op.filename.value in files && k'.members[name] == files[op.filename.value])
    && (op.sparse && op.filename.value in files ==> Carries(op, files[op.filename.value], k'.members[name]))
  }

  lemma {:induction false} RenameFound(files: map<bytes, bytes>, k: Package, renames: seq<Rename>, s: StorageType,
                                       source: bytes)
    requires forall i :: 0 <= i < |renames| ==> RenameHolds(files, k, renames[i])
    requires FindRename(renames, s, source).Some?
    ensures RenameHolds(files, k, Rename(s, source, FindRename(renames, s, source).value))
  {
    hide RenameHolds;
    if |renames| > 0 && FindRename(renames[..|renames| - 1], s, source).Some? {
      RenameFound(files, k, renames[..|renames| - 1], s, source);
    } else {
      assert RenameHolds(files, k, renames[|renames| - 1]);
    }
  }

  lemma FileRegistered(files: map<bytes, bytes>, k: Package, s: StorageType, op: ProgramOp)
    requires Sound(files, k) && s != Unknown && op.filename.Some? && !op.sparse
    requires RegisterFile(files, k, s, op.filename.value).Some?
    ensures var (k', name) := RegisterFile(files, k, s, op.filename.value).value;
            Registered(files, k, k', op, name)
  {
    hide Memory, Text, Basename, FindRename;
    var source := op.filename.value;
    if FindRename(k.renames, s, source).Some? {
      RenameFound(files, k, k.renames, s, source);
    } else {
      var name := Memory(s) + Text("_") + Basename(source);
      MemoryStart(s);
      assert IsStorageName(name);
      AddKeeps(files, k, name, files[source]);
      var added := k.Add(name, files[source]);
      var r := Rename(s, source, name);
      RenameAdded(files, added, r);
      assert added.(renames := k.renames + [r]) == RegisterFile(files, k, s, source).value.0;
    }
  }

  lemma SameNames(k: Package, k': Package)
    requires StorageNames(k) && k'.names == k.names
    ensures StorageNames(k')
  {
  }

  lemma RenameAdded(files: map<bytes, bytes>, k: Package, r: Rename)
    requires Sound(files, k) && RenameHolds(files, k, r)
    ensures Sound(files, k.(renames := k.renames + [r]))
  {
    hide StorageNames;
    var k' := k.(renames := k.renames + [r]);
    forall i | 0 <= i < |k'.renames| ensures RenameHolds(files, k', k'.renames[i]) {
      if i < |k.renames| { assert RenameHolds(files, k, k.renames[i]); }
    }
    SameNames(k, k');
  }

  lemma RawRegistered(files: map<bytes, bytes>, k: Package, s: StorageType, op: ProgramOp)
    requires Sound(files, k) && s != Unknown && op.filename.Some? && op.sparse && op.chunkType == CHUNK_TYPE_RAW
    requires RegisterRaw(files, k, Memory(s), op).Some?
    ensures var (k', name) := RegisterRaw(files, k, Memory(s), op).value;
            Registered(files, k, k', op, name)
  {
    hide Memory, Text, SixDigits, RenamesHold, StorageNames;
    var name := RawName(Memory(s), k.rawIdx);
    MemoryStart(s);
    assert IsStorageName(name);
    var content, size := files[op.filename.value], op.numSectors * op.sectorSize;
    var k1 := k.(rawIdx := (k.rawIdx + 1) % 0x1_0000_0000);
    SameMembers(files, k, k1);
    AddKeeps(files, k1, name, content[op.sparseOffset..op.sparseOffset + size]);
    WithinFile(content, op.sparseOffset, size);
  }

  lemma WithinFile(content: bytes, off: nat, size: nat)
    requires off + size <= |content|
    ensures Padded(content, off, size) == content[off..off + size]
  {
  }

  lemma FillRegistered(files: map<bytes, bytes>, k: Package, s: StorageType, op: ProgramOp)
    requires Sound(files, k) && s != Unknown && op.filename.Some? && op.sparse && op.chunkType == CHUNK_TYPE_FILL
    requires RegisterFill(k, Memory(s), op).Some?
    ensures var (k', name) := RegisterFill(k, Memory(s), op).value;
            Registered(files, k, k', op, name)
  {
    hide Memory, Text, SixDigits, RenamesHold, StorageNames, FillPattern;
    var name := FillName(Memory(s), k.fillIdx);
    MemoryStart(s);
    assert IsStorageName(name);
    var k1 := k.(fillIdx := (k.fillIdx + 1) % 0x1_0000_0000);
    SameMembers(files, k, k1);
    AddKeeps(files, k1, name, FillPattern(op.fillValue, op.numSectors * op.sectorSize));
  }

  lemma ImageRegistered(files: map<bytes, bytes>, k: Package, s: StorageType, op: ProgramOp)
    requires Sound(files, k) && s != Unknown && op.filename.Some? && Register(files, k, s, op).Some?
    ensures var (k', name) := Register(files, k, s, op).value;
            Registered(files, k, k', op, name)
  {
    hide RegisterFile, RegisterRaw, RegisterFill, Registered, Memory, Sound;
    if !op.sparse {
      FileRegistered(files, k, s, op);
    } else if op.chunkType == CHUNK_TYPE_RAW {
      RawRegistered(files, k, s, op);
    } else {
      FillRegistered(files, k, s, op);
    }
  }

  /** Packing an operation adds members and changes none. */
  lemma OpKeeps(files: map<bytes, bytes>, k: Package, op: Op)
    requires Sound(files, k) && k.Valid() && PackOp(files, k, op).Some?
    ensures Sound(files, PackOp(files, k, op).value) && Extends(k.members, PackOp(files, k, op).value.members)
  {
    hide Register, ProgramTag, EraseTag, PatchTag, Text, FindStorage;
    var k2 := PackOp(files, k, op).value;
    if k2.members == k.members && k2.names == k.names && k2.renames == k.renames {
      SameMembers(files, k, k2);
    } else {
      var s := k.Here().storage;
      ImageRegistered(files, k, s, op.p);
      var k1 := Register(files, k, s, op.p).value.0;
      SameMembers(files, k1, k2);
    }
  }

  lemma SameMembers(files: map<bytes, bytes>, k: Package, k': Package)
    requires Sound(files, k) && k'.members == k.members && k'.names == k.names && k'.renames == k.renames
    ensures Sound(files, k')
  {
    forall i | 0 <= i < |k'.renames| ensures RenameHolds(files, k', k'.renames[i]) {
      assert RenameHolds(files, k, k.renames[i]);
    }
  }

  lemma NothingSound(files: map<bytes, bytes>)
    ensures Sound(files, EMPTY_PACKAGE)
  {
  }

  lemma {:induction false} OpsKeep(files: map<bytes, bytes>, ops: seq<Op>)
    requires PackOps(files, ops).Some?
    ensures Sound(files, PackOps(files, ops).value)
  {
    hide PackOp, Sound;
    if |ops| > 0 {
      OpsKeep(files, ops[..|ops| - 1]);
      OpKeeps(files, PackOps(files, ops[..|ops| - 1]).value, ops[|ops| - 1]);
    } else {
      NothingSound(files);
    }
  }

  // ----- Names

  /** A counter below a million is printed with six digits, and they are its number. */
  lemma SixDigitsRead(n: nat)
    requires n < 1000000
    ensures |SixDigits(n)| == 6 && forall i :: 0 <= i < 6 ==> IsDigitIn(SixDigits(n)[i], 10)
    ensures Numerals.Value(SixDigits(n), 10) == n
  {
    hide Decimal;
    SixPlaces();
    Commands.DecimalIsShort(n, 6);
    ValueOfDecimal(n);
    var d := Decimal(n);
    ZerosInFront(seq(6 - |d|, _ => 48), d);
  }

  lemma SixPlaces()
    ensures Commands.Power10(6) == 1000000
  {
    assert Commands.Power10(2) == 100 && Commands.Power10(4) == 10000;
  }

  lemma {:induction false} ZerosInFront(zeros: bytes, d: bytes)
    requires forall i :: 0 <= i < |zeros| ==> zeros[i] == 48
    requires forall i :: 0 <= i < |d| ==> IsDigitIn(d[i], 10)
    ensures forall i :: 0 <= i < |zeros + d| ==> IsDigitIn((zeros + d)[i], 10)
    ensures Numerals.Value(zeros + d, 10) == Numerals.Value(d, 10)
  {
    if |d| > 0 {
      assert (zeros + d)[..|zeros + d| - 1] == zeros + d[..|d| - 1];
      ZerosInFront(zeros, d[..|d| - 1]);
    } else {
      assert zeros + d == zeros;
      OnlyZeros(zeros);
    }
  }

  lemma {:induction false} OnlyZeros(zeros: bytes)
    requires forall i :: 0 <= i < |zeros| ==> zeros[i] == 48
    ensures forall i :: 0 <= i < |zeros| ==> IsDigitIn(zeros[i], 10)
    ensures Numerals.Value(zeros, 10) == 0
  {
    if |zeros| > 0 { OnlyZeros(zeros[..|zeros| - 1]); }
  }

  /** The names of the members made for chunks: storage, kind, and the counter in six digits. */
  lemma ChunkNames(n: nat)
    requires n < 1000000
    ensures RawName(Text("ufs"), n) == Text("ufs_raw_") + SixDigits(n) + Text(".bin")
    ensures FillName(Text("ufs"), n) == Text("ufs_fill_") + SixDigits(n) + Text(".bin")
  {
    hide SixDigits;
    assert Text("ufs") + Text("_raw_") == Text("ufs_raw_") && Text("ufs") + Text("_fill_") == Text("ufs_fill_");
  }

  // ----- What is refused

  /** How many times `d` goes into `m` tells which multiples of `d` are not above `m`. */
  lemma FitsIff(n: nat, d: nat, m: nat)
    requires 0 < d
    ensures n <= m / d <==> n * d <= m
  {
    var q, r := m / d, m % d;
    assert m == q * d + r;
    if n <= q { Distribute(n, q - n, d); } else { Distribute(q, n - q, d); AtLeast(n - q, d); }
  }

  /**
   * A raw chunk is packed exactly when its size is not 0 and fits 63 bits, its name is free and its
   * range in the file.
   */
  lemma RawRegisteredIff(files: map<bytes, bytes>, k: Package, memory: bytes, op: ProgramOp)
    requires op.filename.Some?
    ensures RegisterRaw(files, k, memory, op).Some?
        <==> 0 < op.numSectors * op.sectorSize < 0x8000_0000_0000_0000 && RawName(memory, k.rawIdx) !in k.names
             && op.filename.value in files
             && op.sparseOffset + op.numSectors * op.sectorSize <= |files[op.filename.value]|
  {
    hide RawName;
    if op.sectorSize > 0 { FitsIff(op.numSectors, op.sectorSize, 0x7FFF_FFFF_FFFF_FFFF); }
    if op.sectorSize > 0 && op.numSectors > 0 { AtLeast(op.numSectors, op.sectorSize); }
  }

  /** A fill chunk is packed exactly when its size is not 0 and its name is free. */
  lemma FillRegisteredIff(k: Package, memory: bytes, op: ProgramOp)
    ensures RegisterFill(k, memory, op).Some?
        <==> 0 < op.numSectors * op.sectorSize && FillName(memory, k.fillIdx) !in k.names
  {
    hide FillName, FillPattern;
    if op.sectorSize > 0 && op.numSectors > 0 { AtLeast(op.numSectors, op.sectorSize); }
  }

  /** A file that is not yet packed for a storage is, exactly when it has a name that is free, and is there. */
  lemma FileRegisteredIff(files: map<bytes, bytes>, k: Package, s: StorageType, source: bytes)
    requires s != Unknown && FindRename(k.renames, s, source).None?
    ensures RegisterFile(files, k, s, source).Some?
        <==> source != [] && source in files && Memory(s) + Text("_") + Basename(source) !in k.names
  {
    hide Text, Basename;
  }

  /** A programmer image is named after its file, or gets its slot in front when that name is taken. */
  lemma ImageNamed(k: Package, path: bytes, content: bytes, slot: nat)
    requires path != []
    ensures var base := Basename(path);
            var second := Text("sahara") + Decimal(slot) + Text("_") + base;
            ImageName(k, Image(Some(path), content), slot)
            == if base !in k.names then Some(base) else if second !in k.names then Some(second) else None
  {
    hide Text, Basename, Decimal;
  }
}

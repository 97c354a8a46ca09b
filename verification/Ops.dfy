/** The operations a flashing session is made of. */
module Ops {
  import opened Bytes
  import opened Options

  datatype StorageType = Unknown | Emmc | Nand | Ufs | Nvme | Spinor

  const CHUNK_TYPE_RAW := 0xCAC1
  const CHUNK_TYPE_FILL := 0xCAC2
  const CHUNK_TYPE_DONT_CARE := 0xCAC3

  /** A program operation; without a filename it writes nothing. */
  datatype ProgramOp = ProgramOp(
    partition: int, sectorSize: nat, fromZip: bool, filename: Option<bytes>, startSector: Option<bytes>,
    numSectors: nat, pagesPerBlock: nat, fileOffset: nat, partLabel: Option<bytes>, sparse: bool,
    lastSector: nat, isNand: bool, chunkType: nat, fillValue: nat, sparseOffset: nat)

  datatype EraseOp = EraseOp(
    partition: int, sectorSize: nat, startSector: Option<bytes>, numSectors: nat, isNand: bool, pagesPerBlock: nat)

  datatype PatchOp = PatchOp(
    partition: int, sectorSize: nat, byteOffset: nat, filename: Option<bytes>, sizeInBytes: nat,
    startSector: Option<bytes>, value: Option<bytes>, what: Option<bytes>)

  datatype Op = Configure(storage: StorageType) | Program(p: ProgramOp) | Erase(e: EraseOp) | Patch(q: PatchOp)

  predicate IsUint(n: nat) { n < 0x1_0000_0000 }

  predicate IsInt(i: int) { -0x8000_0000 <= i < 0x8000_0000 }

  /** The numbers are ones that their C types hold. */
  predicate InRange(op: Op) {
    match op
    case Configure(_) => true
    case Program(p) =>
      && IsInt(p.partition) && IsUint(p.sectorSize) && IsUint(p.numSectors) && IsUint(p.pagesPerBlock)
      && IsUint(p.fileOffset) && IsUint(p.lastSector)
    case Erase(e) => IsInt(e.partition) && IsUint(e.sectorSize) && IsUint(e.numSectors) && IsUint(e.pagesPerBlock)
    case Patch(q) => IsInt(q.partition) && IsUint(q.sectorSize) && IsUint(q.byteOffset) && IsUint(q.sizeInBytes)
  }

  /** The names of the storage types. */
  function EncodeStorageType(storage: StorageType): (r: Option<string>)
    ensures r.None? <==> storage == Unknown
  {
    match storage
    case Unknown => None
    case Emmc => Some("emmc")
    case Nand => Some("nand")
    case Ufs => Some("ufs")
    case Nvme => Some("nvme")
    case Spinor => Some("spinor")
  }
}

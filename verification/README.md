# QDL, modelled and proved

QDL flashes Qualcomm devices over the Firehose protocol. This project models its hardest
parts in Dafny and proves what they promise. Code that changes things step by step is
modelled as classes and methods with loops (the SHA-256 context, the digest table
generator, the simulator, the host's reader, the JSON parser, the package writer and
reader, the archive codec, the partition table walk), each proved against functions that
say what it computes; the theorems are about those functions and about whole runs.

`dafny verify dfyconfig.toml` checks everything.

| part | files | main results |
|---|---|---|
| SHA-256 | Sha256Spec, Sha256Standard, Sha2 | both compression variants and the streaming context refine FIPS 180-4; its constants are the roots of the first primes |
| Digest tables (VIP) | VipTables, VipGenerator, VipTransfer, VipReceiver, VipChecker, VipProtocol, VipTheorems | generator, transfer schedule and receiver agree for every number of frames; exactly the frames that differ are reported; the chain is authentic |
| Host and simulator | Framing, Transport, SimDocuments, SimAnswers, Responses, Device, Commands, CommandReader, Firehose, Flashing, VipSession | lockstep over whole runs, with tables in the middle of raw data; a table's life from the dry run to the run under it; push-back keeps the stream in order; every attribute of a command is read back; an answer counts as success exactly when it says ACK |
| Programming | Flash, Files, Numerals, Programming, Skipblock, ZipSkipblock | skipblock refines plain programming, with the exact conditions for host files and for zip members |
| Sparse images | Ops, SparseFormat, SparseLoad, SparseTheorems, SparseEncoding, SparseBytes | the parser inverts the format; running the operations writes exactly the expanded image, byte for byte as it was encoded |
| JSON | JsonSpec, JsonParser, JsonGrammar, JsonTheorems, JsonReference, Flashmap, FlashmapWriter | the parser never backtracks and decides the grammar; printer and parser undo each other |
| Installer packages | Images, ProgramLoad, Meaning, Wire, ZipperSpec, Zipper, FlashmapLoad, FlashmapChoices, PackagedTags, PackagedMembers, PackagedMeaning, PackagedFlashmap, Repackage, RepackageTheorems | when a package loads, and that flashing it means the same on every storage |
| contents.xml | Tokens, Selectors, SelectorTheorems, ContentsSpec, ContentsFiles, ContentsLoad, ContentsTheorems | which selectors there are and which a pattern picks; which files are used; what is loaded can be packaged |
| Programmer archives | ProgrammerArchive, ArchiveTheorems | reading undoes writing; when reading goes behind the end of a file |
| Partition tables | Utf16, Gpt, GptTheorems | the walk lists the flat array; names come out whole |

The XML library appears as a pair of functions between documents (attribute records) and
bytes; a theorem that depends on a document surviving the library says so, of the documents
and commands that are written and of no others. Zip archives
are maps from names to contents. The transport is a list of deliveries, zero-length
packets, silences and failures. SHA-256 is the real function; where a theorem needs that
two different strings have different digests, it asks so of exactly those strings, since
no function into 32 bytes is injective.

## What the code does not do

Where a promise holds only under a condition, the theorem states it; most of these
conditions are proved exact.

- The simulator never announces VIP (src/sim.c:572-574), and the host then gives VIP up
  before the first command (src/firehose.c:1773-1777). A dry run with tables therefore
  checks nothing and reports no mismatch, although docs/vip.md:63-68 says that it does.
  `VipSession.FlashWithTables` follows the code.
- Skipblock (src/firehose.c:979-1071) addresses every chunk but the first with the number
  that strtoull reads from the start sector. On a host file it agrees with plain programming
  on all flash contents exactly when there is a single chunk or the start sector is that
  number, chunk addresses fitting 64 bits, and every chunk finds its data in the file in
  spite of its 32-bit offset there. `Skipblock.SymbolicStartFails` has an instance.
- A zip member is not rewound (src/file.c:148-164), so a rewritten chunk holds what follows
  the bytes its digest was taken of, and every later chunk is looked for behind that. Skipblock
  agrees with plain programming on all flash contents and replies exactly when every chunk
  gets its data wherever earlier rewrites have left the member; for a member that fits its
  region this means that it is all zeros. `ZipSkipblock.OneByteLost` has an instance.
- The loop over skipblock's chunks ends exactly when the region leaves room for the largest
  power of two in a chunk's sectors, below 2^32 sectors. For sector sizes that are powers of
  two that is a whole chunk; for others the 32-bit offset may wrap, and the loop goes through
  the region again at other offsets.
- A sparse image is expanded with start sectors counted from the number that strtoul reads,
  modulo 2^32 (src/program.c:163-168). Flash holds the expanded image after every operation
  exactly when only the image's start is written, or the start sector is that number and the
  number of the last written chunk fits 32 bits. `SparseTheorems.SymbolicImageFails` has an
  instance.
- The answer to configure counts as success whatever it says, NAK included, as long as it has a
  value and a payload size (src/firehose.c:489-533): the size in it is then tried.
- A fill pattern starts again with every frame (src/firehose.c:1210-1214, 807-833), which makes
  no difference for every fill value exactly when the fill is one frame or its frames are a
  multiple of four bytes.
- A package with a programmer in slot 0 is written and then refused (src/flashmap.c:97-101),
  and so is one with an empty programmer image or with a program that has no label. A
  programmer called flashmap.json is overwritten by the flashmap.
- A plain image with a file offset, an operation without a start sector, and an erase of
  another kind than its storage's do not mean the same in a package; patches move behind
  everything else on their storage. These are the only differences, for whole lists of
  operations and for every contents of the files; a file offset matters exactly when the
  image is not the same from there as from its start.
- The operations of a sparse image inside an archive are looked up on the host, because
  the archive is not passed on to them (src/program.c:140-163).
- The operations of an unknown storage in a flashmap are filtered as those of the storage
  before it (src/flashmap.c:530-539).
- A programmer archive gives back a basename only if it has no colon and fits its field.
- The decoder checks an entry's sizes before it aligns the data (src/programmer.c:102-133),
  and so reads behind the end of a file whose last entry has some data and fewer bytes behind
  its name and data than the alignment skips. Without data nothing is read there, and the
  file is refused.
- The walk over a partition table has a buffer of 4096 bytes and does not check the sector
  size (src/gpt.c:141-196); the sector sizes that qdl finds by itself, 512 and 4096 bytes
  (src/firehose.c:570-628), fit. With larger ones an entry might be looked for behind it.
- `gpt_find_by_name` fixes the physical partition at the first match, so a second match on
  another one goes unnoticed; and after a failed load with some partitions found, the
  tables count as loaded (src/gpt.c:241-242).

## Model

| member | source | states |
|---|---|---|
| Sha2.TransformUnrolled | src/sha2.c:193-268 | the unrolled compression, with its macros that rotate register names instead of values and a 16-word circular schedule, computes the state of section 6.2.2 of FIPS 180-4 for every state and block |
| Sha2.TransformRolled | src/sha2.c:272-343 | the rolled compression computes the same state of section 6.2.2 of FIPS 180-4, so both variants agree on every state and block |
| Sha2.RoundFirst | src/sha2.c:193-200 | one of the first sixteen unrolled rounds: two registers change in place and one schedule slot is filled from the block |
| Sha2.RoundLater | src/sha2.c:202-211 | a later unrolled round: the slot of the word sixteen places back is overwritten by the next schedule word |
| Sha2.ScheduleAdvances | src/sha2.c:202-211 | storing word t over slot t mod 16 keeps the last sixteen schedule words in place |
| Sha2.Context.Init | src/sha2.c:181-187 | a context stands for the empty message |
| Sha2.Context.Update | src/sha2.c:348-391 | a context for m stands for m followed by the data, for every split at block boundaries |
| Sha2.Context.StashBlock | src/sha2.c:356-367 | data that completes the partial block folds that block in |
| Sha2.Context.FoldBlock | src/sha2.c:376-382 | a block straight from the caller's data is folded in without a copy |
| Sha2.Context.PadAndTransform | src/sha2.c:394-434 | padding, in one block or in two around 56 used bytes, ends with the hash value of the padded message |
| Sha2.Context.Final | src/sha2.c:437-452 | the digest is the one-shot hash of everything taken in |
| Sha2.HashPieces | src/sha2.c:348-452 | for every list of pieces shorter than 2^61 bytes together, Init, Updates and Final give the one-shot hash of the concatenation |
| Sha256Spec.PadIsWhole | src/sha2.c:394-434 | the number of zero octets is the least solution of the congruence of section 5.1.1 of FIPS 180-4 |
| Sha256Standard.InitialHashIsSquareRoots | src/sha2.c:168-177 | word i of the initial hash value is the first 32 bits of the fraction of the square root of prime i (section 5.3.3 of FIPS 180-4) |
| Sha256Standard.KIsCubeRoots | src/sha2.c:148-165 | constant t is the first 32 bits of the fraction of the cube root of prime t (section 4.2.2) |
| Sha256Standard.PrimesInOrder | src/sha2.c:147-177 | the primes meant are the first 64, each the next prime number behind the one before |
| Sha256Standard.BigSigma0Bits | src/sha2.c:140 | rotations by 2, 13 and 22 bits, mixed |
| Sha256Standard.BigSigma1Bits | src/sha2.c:141 | rotations by 6, 11 and 25 bits, mixed |
| Sha256Standard.SmallSigma0Bits | src/sha2.c:142 | rotations by 7 and 18 bits and a shift by 3, mixed |
| Sha256Standard.SmallSigma1Bits | src/sha2.c:143 | rotations by 17 and 19 bits and a shift by 10, mixed |
| Sha256Standard.Rotations | src/sha2.c:133 | the pair of shifts is a rotation to the right, for each of the ten distances in use |
| Sha256Standard.ShrBits | src/sha2.c:131 | the other shift only drops bits on the right |
| Sha256Standard.ChBits | src/sha2.c:136 | each bit is taken from one of two words, as the bit of the first says |
| Sha256Standard.MajBits | src/sha2.c:137 | each bit is one where at least two of three words have a one |
| Sha256Standard.RoundSums | src/sha2.c:193-211 | what a round makes of the eight registers, as plain sums modulo 2^32 (section 6.2.2) |
| Sha256Standard.CompressSums | src/sha2.c:214-268 | the hash value after a block is, word by word, the one before plus the register that started from it |
| Sha256Standard.ScheduleSums | src/sha2.c:193-207 | the first 16 schedule words are the block, most significant byte first, and each later one is the sum of four earlier ones modulo 2^32 |
| Sha256Standard.PadLayout | src/sha2.c:394-434 | the padded message is the message, a one bit, zeros and the length in bits as a 64-bit number |
| Sha256Standard.DigestWords | src/sha2.c:437-452 | the digest is the eight words of the hash value, most significant byte first |
| VipTables.PayloadsArePrefix | src/vip.c:254-309 | the signed table and the chained tables partition the full digest table: nothing is lost, repeated or reordered |
| VipTables.ChainedTableLength | src/sim.c:265-320 | the last chained table is the only one whose size is not a multiple of 32, which is how the receiver tells it |
| VipTables.LinkCompletes | src/vip.c:311-342 | appending the next table's hash to a table as first written gives the linked table |
| VipGenerator.Generator.ChunkInit | src/vip.c:99-108 | the frame's hash context starts empty |
| VipGenerator.Generator.ChunkUpdate | src/vip.c:110-119 | the context takes in a piece of the frame |
| VipGenerator.Generator.ChunkStore | src/vip.c:121-149 | the full table grows by the hash of the frame's pieces joined, and the count by one |
| VipGenerator.Generator.WriteDigestsToTable | src/vip.c:176-240 | exactly the asked-for digests are copied, 16 at a time, and the optional context hashes what was copied; it fails when the source is too short |
| VipGenerator.Generator.WriteChainedTable | src/vip.c:270-309 | one chained table with its digests, a final zero byte on the last one, and the cached context of its bytes |
| VipGenerator.Generator.LinkTable | src/vip.c:311-342 | the hash finished from a copy of the cached context is appended to the previous table, the original context staying usable |
| VipGenerator.Generator.LinkTables | src/vip.c:311-342 | linking backwards from the cached contexts leaves every table ending in the hash of the next table's final bytes, no file being read again |
| VipGenerator.Generator.CreateChainedTables | src/vip.c:242-347 | the directory holds exactly the linked tables of the digests, and nothing else has changed |
| VipChecker.Checker.RecvTable | src/sim.c:236-340 | the receiver's memory after a table is the abstract receiver's: payload found, link checked, digests stored, errors reported |
| VipChecker.Checker.CheckChunk | src/sim.c:349-396 | one digest is consumed per frame and a difference reported; before any table nothing is checked |
| VipReceiver.PayloadExactly | src/sim.c:193-220 | a payload is found exactly when the image is a version 5 or 6 header with its sizes, anything else, the payload and a trailer |
| VipReceiver.WrappedPayloadFound | src/sim.c:193-220 | a payload behind a header with the fields of version 5 or 6 is the payload that is found |
| VipReceiver.FramesReported | src/sim.c:349-396 | however many frames there are, frame i is reported missing exactly when there is no digest i, and otherwise right exactly when its hash is digest i |
| VipTransfer.RunFits | src/vip.c:458-506 | a run lacks no table exactly while its frames fit 53 + 255 for each chained table, and its state is then given in closed form |
| VipTransfer.ScheduleStep | src/vip.c:458-506 | one frame more moves the closed form on as the state machine does |
| VipTransfer.ScheduleEnd | src/vip.c:480-484 | the frame after the last covered one finds its table missing |
| VipTheorems.TransferInit | src/vip.c:369-408 | at most 32 chained tables are opened, up to the first one missing |
| VipTheorems.OpensGenerated | src/vip.c:369-408 | opening a generated directory gives the generated tables, whatever older tables are left behind them |
| VipProtocol.RunMatches | src/vip.c:458-506 | under generated tables the receiver after k frames holds the tables due by then, reported each just before the first frame it covers, and has compared frame i with digest i |
| VipTheorems.EndToEnd | src/vip.c:242-506 | after generating and signing, a run of the same frames lacks no table exactly when there are at most 53 + 32 * 255 of them; then every chain check passes and every frame matches its own digest |
| VipTheorems.ArrivesJustInTime | src/vip.c:458-506 | a table arrives right before frame i exactly when i is the first frame it covers |
| VipTheorems.OnlyMismatches | src/sim.c:349-396 | mismatches are the only errors a run under generated tables reports |
| VipTheorems.Detects | src/sim.c:349-396 | under tables made for other frames, frame i is reported exactly when its hash is not that of the frame the table was made for |
| VipTheorems.DetectsDifference | src/sim.c:349-396 | without a collision in a pair of frames, the frame is flagged exactly when the two differ |
| VipTheorems.ChainIsAuthentic | src/sim.c:265-320 | with the generated signed table, and no collision with the tables sent, chained tables that pass every check are the generated ones byte for byte, as far as the run got |
| Devices.Device.QdlRead | src/io.c:65-85 | pushed-back bytes are served first and alone, then the transport |
| Devices.Device.QdlPushBack | src/io.c:101-127 | bytes go behind whatever is still pending |
| Devices.Device.SimRead | src/sim.c:415-478 | queued responses first, cut at the caller's size, then raw zeros with the acknowledgement behind the last, then silence |
| Devices.Device.SimWrite | src/sim.c:496-627 | a table, raw data or a command, by the state: the simulator's state afterwards is the abstract one |
| Devices.Device.Dispatch | src/sim.c:572-621 | what each command makes the simulator say, and whether it expects or serves raw data |
| Firehose.AnswerIs | src/sim.c:572-621 | the answer to each command by its name, the phase and size of raw data behind it, and that only a power command ends the session |
| Devices.Device.VipTransferSendRaw | src/vip.c:417-456 | a table reaches the receiver as a table, even in the middle of raw data |
| Devices.Device.VipTransferHandleTables | src/vip.c:458-506 | the due table is sent and the frame counted; a missing table fails and changes nothing |
| Framing.WalkDocuments | src/firehose.c:327-405 | a buffer of whole messages is consumed message by message |
| Firehose.WalkBuffer | src/firehose.c:327-405 | the walk over one buffer is the abstract walk: bounded documents, the last response, the announcement of VIP, raw mode with the rest |
| Firehose.FirehoseRead | src/firehose.c:270-414 | the wait is the abstract wait, for every transport: messages up to a silence after a response or to raw mode; push-back happens only while nothing is pending; for log messages, one response and silence, the loss of the device or raw data, it returns 0 exactly when the response says ACK, 1 exactly when it says NAK, and an error for everything else |
| Responses.AnswerJudged | src/firehose.c:155-185 | over log messages and pauses, a response among more of them, and silence or the loss of the device, the generic wait is 0 exactly when the value attribute is ACK and 1 exactly when it is NAK; anything else, or no value, is an error |
| Responses.RawAnswerJudged | src/firehose.c:155-185 | the same for a response that switches to raw mode, whatever data follows |
| Responses.AwaitConfigures | src/firehose.c:489-533 | waiting for the answer to configure succeeds exactly when it has a value, a payload size and, if it says ACK, a supported payload size; the size is the supported one for ACK and the other one for everything else, NAK included |
| Responses.AnnouncedIff | src/firehose.c:61-78 | VIP is announced exactly by log messages that contain the text "VIP is enabled, receiving the signed table" |
| Transport.RawModeSplits | src/firehose.c:355-411 | after the response that switches to raw mode exactly the bytes behind its closing tag are ahead, in order, however the payload is cut into deliveries |
| Transport.GatherKeepsOrder | src/io.c:65-85 | what is gathered, followed by what is still ahead, is what was ahead |
| Transport.RawReadInOrder | src/firehose.c:1322-1377 | a rawmode read delivers exactly the bytes behind the closing tag, in order |
| Flashing.ReceiveSectors | src/firehose.c:1322-1377 | the sectors read over a stream are a prefix of those bytes, and what is left is the rest |
| SimAnswers.AwaitLogAndRaw | src/sim.c:576-590 | the answer to a program or read command is understood as an acknowledgement with raw mode, with nothing lost |
| SimAnswers.AwaitLogAndConfigure | src/sim.c:572-574 | the answer to a configure command is understood, with the simulator's payload size |
| Commands.SizeRead | src/sim.c:129-141 | the size that the simulator reads from a command is the size that was meant, although it is printed signed |
| CommandReader.ProgramAttributes | src/firehose.c:1163-1187 | every attribute of a program command, read back by its own name: sector size, sectors, partition (negative ones included), start sector and file name up to 127 characters, slot, and the NAND attributes, absent for other storage |
| CommandReader.ReadAttributes | src/firehose.c:1291-1300 | every attribute of a read command, likewise |
| CommandReader.EraseAttributes | src/firehose.c:664-681 | every attribute of an erase command, likewise; sectors and start are absent when there are no sectors |
| CommandReader.PatchAttributes | src/firehose.c:1506-1516 | every attribute of a patch command, likewise, with byte offset, size and value |
| CommandReader.ConfigureAttributes | src/firehose.c:553-558 | every attribute of a configure command, with the name of the storage |
| Firehose.FirehoseWrite | src/firehose.c:442-480 | a command is sent behind the table it needs, hashed for the digest table when one is made, and leaves both sides in step |
| Firehose.VipSendTable | src/firehose.c:416-440 | the table that is due, if any, is sent and acknowledged, also in the middle of a raw phase; it fails exactly when no table covers the frame |
| Firehose.FirehoseErase | src/firehose.c:650-701 | an erase is one frame, and afterwards both sides are idle and in step |
| Firehose.FirehoseApplyPatch | src/firehose.c:1487-1529 | a patch of the disk is one frame, any other none; what the frame says is told by CommandReader.PatchAttributes |
| Firehose.StreamChunk | src/firehose.c:820-846 | one raw frame, behind the table it needs |
| Flashing.StreamFrames | src/firehose.c:792-854 | exactly num_sectors * sector_size raw bytes go out, in frames of whole sectors, and the simulator ends in XML state with none outstanding |
| Flashing.RawFramesCarryData | src/firehose.c:792-854 | the raw frames, joined, are the whole data in order, a fill being in phase |
| Flashing.FirehoseProgram | src/firehose.c:1093-1256 | a program of at least one sector sends its command, whose attributes are told by CommandReader.ProgramAttributes, and the data, and leaves both sides idle and in step; one of no sectors fails |
| Flashing.FirehoseIssueRead | src/firehose.c:1258-1402 | a read sends its command, whose attributes are told by CommandReader.ReadAttributes, gets all its sectors from the simulator and leaves both sides idle and in step |
| Flashing.ReadSectors | src/firehose.c:1322-1377 | the sector loop gathers short reads and skips empty ones |
| Flashing.SendConfigure | src/firehose.c:535-564 | a configure command and the size proposed in its answer |
| Flashing.TryConfigure | src/firehose.c:566-618 | a second configure command follows exactly when another payload size is proposed |
| Flashing.DetectAndConfigure | src/firehose.c:1738-1818 | VIP is given up before the first command when the programmer did not announce it |
| Flashing.ExecuteJob | src/firehose.c:1879-1962 | after every operation both sides are idle and in step, the frames sent being those of the operation; the exact condition of success |
| Flashing.OnlyTheseCommands | src/firehose.c:1879-1962 | the commands of an operation, which the XML library is asked to give back, are the only ones it sends; all its other frames are a program's data |
| VipSession.ExecuteOps | src/firehose.c:1879-1962 | the same over every run: success exactly when every operation can and, under VIP, the tables reach to the last frame |
| VipSession.CreateDigests | src/vip.c:349-367 | the dry run over the operations leaves the tables of the frames that were sent |
| VipSession.CreateSignFlash | src/firehose.c:1879-1962 | dry run, signing and the run under VIP: the second run succeeds exactly when there are at most 53 + 32 * 255 frames, and its report has no error; without the announcement the report is empty |
| Files.QdlFile.Seek | src/file.c:148-164 | a file on the host moves; a zip member does not, and says so unless the offset is 0 |
| Files.QdlFile.ReadExact | src/file.c:130-146 | short reads are put together up to the length or the end of the file |
| Numerals.StrtoulOfDecimal | src/program.c:165-168 | strtoul reads back what "%u" printed, in either base, and stops right behind it |
| Numerals.StrtoulSaturates | src/program.c:163-168 | a number of 2^64 and more is read as 2^64 - 1 |
| Numerals.StrtoulOfHex | src/program.c:163-168 | in base 0 a number behind 0x or 0X is read to the base 16 |
| Numerals.StrtoulOfOctal | src/program.c:163-168 | in base 0 a number with a zero in front is read to the base 8 |
| Numerals.StrtoulOfPrintD | src/sim.c:129-141 | cut to 32 bits it also reads back what "%d" made of an unsigned int |
| Programming.StreamOut | src/firehose.c:792-854 | a region receives what is streamed, whole sectors, for every payload size not below the sector size; a fill pattern starts again with every frame |
| Programming.FillRepeats | src/firehose.c:1210-1214 | byte i of a fill is byte i mod 4 of the four bytes its value was read from |
| Programming.StreamedRepeats | src/firehose.c:792-854 | what is streamed of a fill has those four bytes, from the first one on, over and over in every frame |
| Programming.PhaseIff | src/firehose.c:1210-1214 | every fill value comes out as it is meant exactly when the fill is one frame or its frames are a multiple of four bytes |
| Programming.ProgramPlain | src/firehose.c:1134-1228 | the plain path leaves the padded image in the region and everything else as it was; a zip member is read from its start, whatever the file offset |
| Programming.RegionLocalDigest | src/firehose.c:742-782 | the digest of a file region, hashed in pieces, is that of the zero-padded region |
| Programming.ProgramChunk | src/firehose.c:985-1062 | a chunk of a host file ends up holding its data, whether or not a matching digest was reported; one of a zip member is kept exactly when its digest is the device's, and otherwise gets what follows in the member |
| Programming.ProgramSkipblock | src/firehose.c:971-1091 | so do all chunks, each where it is addressed, a zip member moving on with every digest and every rewrite |
| Skipblock.SkipblockRefinesPlain | src/firehose.c:979-1071 | on every flash the fast path ends where the plain path does, exactly when the region is a single chunk or its start sector is the number strtoull reads, with addresses that fit 64 bits, and every chunk finds its data in the file |
| Skipblock.FileOffsetIff | src/firehose.c:992-995 | every file of the region's size has its data found exactly when the sector number of the last chunk in the file fits 32 bits |
| Skipblock.LoopEndsIff | src/firehose.c:992 | for every sector size the loop over the chunks ends exactly when the region leaves room for the largest power of two in a chunk's sectors below 2^32 sectors |
| Skipblock.PowerOfTwoChunks | src/firehose.c:979 | for sector sizes that are powers of two that is a whole chunk |
| Skipblock.SymbolicStartFails | src/firehose.c:1003-1016 | a region of two chunks that starts at NUM_DISK_SECTORS-33. ends up elsewhere than by plain programming |
| ZipSkipblock.ZipRunAgreesIff | src/file.c:148-164 | one run over a zip member, whatever its digests and replies, ends where plain programming does exactly when its chunks together got the member's data |
| ZipSkipblock.ZipSkipblockIff | src/file.c:148-164 | every run over a zip member does, for all flash contents and replies, exactly when the region is addressed right and every chunk gets its data wherever earlier rewrites left the member |
| ZipSkipblock.OneChunkIff | src/file.c:148-164 | for a region of one chunk this means that every byte is the one a whole region further on |
| ZipSkipblock.WholeMemberIff | src/firehose.c:1134-1143 | for a member that its region holds whole this means that it is all zeros |
| ZipSkipblock.OneByteLost | src/firehose.c:1062-1066 | a member of one byte on blank flash, with no digest reported, is stored as zeros |
| ZipSkipblock.ProgramBothWays | src/firehose.c:979-1228 | both paths run on the same file and flash, on the host or in an archive, end alike under these conditions, whatever the device answers |
| SparseFormat.SparseHeaderParse | src/sparse.c:24-52 | the header that is accepted, and where the chunks start |
| SparseFormat.SparseChunkHeaderParse | src/sparse.c:54-129 | the chunk at the cursor and the position behind it, with every check |
| SparseEncoding.ImageParses | src/sparse.c:24-129 | the parser inverts a writer of the format on every well-formed image, header extensions included |
| SparseEncoding.HeaderDecodes | src/sparse.c:24-52 | the fields of a header are read where the format has them, behind the bytes 3a ff 26 ed 01 00 00 00 |
| SparseEncoding.HeaderFoundIff | src/sparse.c:24-52 | a header is accepted exactly in 28 bytes and more that start with the magic number and version 1.0; its own size says where the chunks are, except in a zip member |
| SparseLoad.ProgramLoadSparse | src/program.c:65-173 | the operations of an image and the program left behind, exactly when everything parses; an image of the partition's size without a sparse header is programmed as it is |
| SparseTheorems.FirehoseProgram | src/firehose.c:1093-1256 | the effect of a program operation on flash, for plain images, raw and fill chunks, on the host or in an archive, whatever the sector size; a fill out of phase gets what is streamed |
| SparseTheorems.SparseRun | src/program.c:108-170 | the operations of an image whose chunks are placed right, run in order, put exactly the expanded image into flash; their ranges are ordered and disjoint |
| SparseTheorems.SparseRunIff | src/program.c:108-170 | on every flash and after every operation the image expanded so far is in place exactly when only its start is written, or the start sector is the number strtoul reads and that of the last written chunk fits 32 bits |
| SparseTheorems.SymbolicImageFails | src/program.c:163-168 | an image that starts at NUM_DISK_SECTORS-33. and has a chunk behind the first ends up elsewhere |
| SparseBytes.ProgramSparseImage | src/program.c:295-311 | loading an image and running its operations leaves flash equal to the image on raw and fill sectors and unchanged elsewhere, its chunks being placed right and its fills in phase: raw data as it was encoded, the four bytes of a fill over and over; the parent operation writes nothing |
| SparseBytes.SectorBytes | src/sparse.c:24-129 | byte i of sector k of an encoded image is byte k * size + i of what was encoded |
| SparseBytes.ChunksAcceptedIff | src/program.c:124-139 | the chunks of an image become operations exactly when each that is not empty is a whole number of sectors, below 2^32 - 1 |
| JsonParser.Parser.Input | src/json.c:267-276 | the next character, or the end |
| JsonParser.Parser.Unput | src/json.c:278-284 | the last character is back |
| JsonParser.Parser.EnterNesting | src/json.c:248-259 | nesting grows up to 256 and no further |
| JsonParser.Parser.ParseEscape | src/json.c:154-246 | an escape, surrogate pairs included, is read as the pure parser reads it |
| JsonParser.Parser.ParseString | src/json.c:295-350 | a string likewise; 0 leaves the cursor where it was |
| JsonParser.Parser.ParseNumber | src/json.c:352-454 | a number likewise |
| JsonParser.Parser.ParseKeyword | src/json.c:456-490 | a keyword likewise |
| JsonParser.Parser.ParseArray | src/json.c:526-584 | an array likewise, with nesting restored on every exit |
| JsonParser.Parser.ParseProperty | src/json.c:645-676 | a key, a colon and a value likewise |
| JsonParser.Parser.ParseObject | src/json.c:586-643 | an object likewise, with nesting restored on every exit |
| JsonParser.Parser.ParseValue | src/json.c:492-524 | the alternatives in turn never read a character twice: the result is that of a parser that looks one character ahead |
| JsonParser.ParseBuffer | src/json.c:678-722 | the whole text: the result equals the pure parse function |
| JsonTheorems.ParserDecidesGrammar | src/json.c:678-722 | the parser accepts exactly the texts with a reading in the grammar of RFC 8259 at most 256 deep, with numbers a double holds, and returns what every reading means |
| JsonTheorems.CharsStand | src/json.c:295-350 | a string of the grammar is read back as what its characters stand for |
| JsonTheorems.NumeralStands | src/json.c:352-454 | a numeral is read as the number it means |
| JsonReference.NumeralIsScaled | src/json.c:352-454 | the number a numeral means is the integer of all its digits times ten to the exponent less the digits behind the point, with its sign |
| JsonReference.EscapeTable | src/json.c:154-246 | the letters that may follow a backslash, and what each stands for (section 7 of RFC 8259) |
| JsonReference.HexUnitIsNumber | src/json.c:154-246 | four hexadecimal digits are read as the number they are to the base 16 |
| JsonReference.DigitsAndSpaces | src/json.c:154-246 | the hexadecimal digits of both cases in the order of their values, and the characters of isspace |
| JsonReference.OverflowIsMidpoint | src/json.c:352-454 | numbers are refused from the middle between the largest double and the next power of two on |
| Flashmap.EscapedReadsBack | src/zipper.c:642-685 | every string that was written is read back unchanged, whatever follows it |
| Flashmap.PrettyParses | src/zipper.c:802-865 | a document laid out as the writer does is parsed as what it means |
| FlashmapWriter.JsonBuffer.AppendEscapedString | src/zipper.c:642-685 | the buffer grows by the escaped literal |
| FlashmapWriter.JsonBuffer.AppendStorage | src/zipper.c:836-855 | the buffer grows by the lines of one storage |
| FlashmapWriter.JsonBuffer.BuildJson | src/zipper.c:802-865 | the buffer grows by the laid-out document of the programmers and the storages |
| FlashmapLoad.GetChild | src/json.c:724-737 | the first member with the key |
| FlashmapLoad.FirstIndex | src/json.c:724-820 | no member before it has the key |
| FlashmapLoad.FlashmapReader.LoadSaharaImage | src/util.c:342-370 | an image is loaded from a file that is there and not empty |
| FlashmapLoad.FlashmapReader.GetProgrammerMap | src/flashmap.c:77-128 | every member with an id from 1 to 127 in any notation of C and a loadable file fills its slot; one bad member refuses all |
| FlashmapLoad.FlashmapReader.GetLegacyProgrammer | src/flashmap.c:43-75 | the single programmer of the older version goes to its one slot |
| FlashmapChoices.LegacyMeans | src/flashmap.c:43-75 | a flashmap of version 1.1.0 with one layout loads exactly when its programmer and its storages do; the programmer goes to slot 13 |
| FlashmapLoad.FlashmapReader.LoadXml | src/flashmap.c:140-221 | a file is a patch file or a program file by its root element |
| FlashmapLoad.FlashmapReader.EnumerateProgrammable | src/flashmap.c:244-289 | one storage: its configuration and the operations of its files in order |
| FlashmapLoad.FlashmapReader.EnumerateProgrammables | src/flashmap.c:223-293 | all storages in order; an empty list is refused |
| FlashmapLoad.FlashmapReader.MoveSelected | src/flashmap.c:530-539 | the operations of the selected storage types, under a running type that an unknown storage does not change |
| FlashmapChoices.SelectedTraces | src/flashmap.c:527-545 | with a filter, each selected storage receives all that it does without one, and no other receives anything |
| FlashmapLoad.FlashmapReader.Select | src/flashmap.c:372-412 | the first layout of the name, or the only one |
| FlashmapChoices.LayoutChosen | src/flashmap.c:372-412 | among layouts with names, the first of the name that is asked for is taken, and none if there is none |
| FlashmapLoad.FlashmapReader.LoadFlashmap | src/flashmap.c:414-556 | the images and operations that the flashmap stands for are appended, exactly when it is understood |
| ProgramLoad.OpList.LoadEraseTag | src/program.c:27-63 | the erase that a tag stands for; a missing attribute or no sectors refuse it |
| ProgramLoad.OpList.LoadProgramTag | src/program.c:238-328 | the program of a tag, or the operations of its sparse image, on the host or in an archive |
| ProgramLoad.SparseTagIff | src/program.c:238-328 | the image of a tag is expanded exactly when the tag says sparse="true" |
| ProgramLoad.NoSparseHeader | src/program.c:65-105 | without a sparse header an image on the host that has the partition's size is programmed as it is, and any other is refused |
| ProgramLoad.OptionalAttributes | src/program.c:238-328 | of the attributes of a program tag only the last sector, which counts for NAND alone, and the mark of a sparse image may be missing |
| ProgramLoad.OpList.ProgramLoadXml | src/program.c:330-357 | all tags in order; an unknown tag refuses the file |
| ProgramLoad.TagsLoadIff | src/program.c:330-357 | a program file loads exactly when each of its tags is an erase or a program that does |
| ProgramLoad.OpList.PatchLoadXml | src/patch.c:18-64 | all patches in order; unknown tags are passed over |
| ProgramLoad.PatchesLoadIff | src/patch.c:18-64 | a patch file loads exactly when each of its patches does, one operation for each |
| Images.BasenameExactly | src/zipper.c:23-40 | the basename of a path is exactly what stands behind its directory and in front of trailing slashes; a path of slashes gives one slash |
| Zipper.FillBuffer | src/zipper.c:436-441 | the buffer of a fill chunk is the value over and over, the last copy cut short: byte i is byte i mod 4 of the four bytes the value was read from |
| Zipper.PackageWriter.FindFileRename | src/zipper.c:211-224 | the first rename of the storage and file |
| Zipper.PackageWriter.FindStorageContext | src/zipper.c:239-250 | the first context of the storage |
| Zipper.PackageWriter.RegisterRawProgramFile | src/zipper.c:337-395 | a raw chunk becomes a member of its own |
| Zipper.PackageWriter.RegisterFillProgramFile | src/zipper.c:397-457 | a fill chunk becomes a member of its own |
| Zipper.PackageWriter.RegisterProgramFile | src/zipper.c:459-525 | a file is added once for each storage that uses it, under a name that was free |
| Zipper.PackageWriter.WriteOp | src/zipper.c:912-1001 | one operation: members, renames and tags afterwards, and exactly when it is refused |
| Zipper.PackageWriter.WriteOps | src/zipper.c:912-1001 | all operations in order |
| Zipper.PackageWriter.AddProgrammerImages | src/zipper.c:687-740 | each programmer image under its basename or one made unique by its slot; at least one there must be |
| Zipper.PackageWriter.AddStorageXml | src/zipper.c:752-800 | the two documents of a storage |
| Zipper.PackageWriter.Write | src/zipper.c:867-1074 | the members of the package, exactly when nothing is refused |
| PackagedTags.SignedReadsBack | src/util.c:66-80 | an int printed with "%d" is read back through an unsigned |
| PackagedTags.ProgramReadsBack | src/program.c:238-328 | a program tag of a package is read back exactly when it has a label and is of the storage's kind, and then as the packaged program |
| PackagedTags.EraseReadsBack | src/program.c:27-63 | an erase tag is read back exactly when it has sectors and the pages that NAND needs |
| PackagedTags.PatchReadsBack | src/patch.c:18-64 | a patch is read back unchanged, absent strings staying absent |
| PackagedTags.PlainImageIff | src/zipper.c:963-973 | a plain image is the same from a zip, whatever it holds, exactly when it is used from its start |
| PackagedTags.ProgramSurvivesIff | src/zipper.c:306-335 | a program means the same in a package, whatever its image holds, exactly when it has a start sector and, unless sparse, no file offset |
| PackagedTags.ProgramKeptIff | src/zipper.c:306-335 | with a given image, a program means the same in a package exactly when it has a start sector and a plain image is the same from its start as from its offset |
| PackagedTags.EraseSurvivesIff | src/zipper.c:527-544 | an erase that is read back means the same exactly when it has a start sector and the storage's kind |
| PackagedTags.PatchSurvivesIff | src/zipper.c:546-564 | a patch of the disk means the same exactly when it has a start sector |
| PackagedTags.MissingStartIsZero | src/zipper.c:527-564 | an erase or a patch without a start sector is written, and read back, with start sector 0 |
| PackagedMembers.OpKeeps | src/zipper.c:104-114 | packing an operation adds members and changes none |
| PackagedMembers.RawRegisteredIff | src/zipper.c:337-395 | a raw chunk is packed exactly when its size is not 0 and fits 63 bits, its name is free and its range is within the file |
| PackagedMembers.FillRegisteredIff | src/zipper.c:397-457 | a fill chunk is packed exactly when its size is not 0 and its name is free |
| PackagedMembers.FileRegisteredIff | src/zipper.c:459-525 | a file not yet packed for a storage is, exactly when it is there and the storage's name and its basename make a free name |
| PackagedMembers.ImageNamed | src/zipper.c:687-740 | a programmer image gets its basename, or, when that is taken, its slot and its basename, or is refused |
| PackagedMembers.ChunkNames | src/zipper.c:337-457 | the names of the members for chunks: storage, kind and the counter |
| PackagedMembers.SixDigitsRead | src/zipper.c:337-457 | a counter below a million has six digits, which are its number |
| PackagedMeaning.AllRead | src/zipper.c:912-1001 | for every storage, its documents load exactly when its operations are readable, and then mean what the faithful operations meant |
| PackagedFlashmap.ProgrammersRead | src/flashmap.c:77-128 | the programmer map that was written fills the slots of its images, and is refused exactly when slot 0 is in it or an image is missing or empty |
| PackagedFlashmap.StoragesRead | src/flashmap.c:223-293 | the list of storages that was written gives the operations of their documents |
| PackagedFlashmap.FlashmapMeans | src/flashmap.c:414-556 | the flashmap that was written loads exactly when its images and documents do |
| PackagedFlashmap.FlashmapParses | src/zipper.c:802-865 | the text of the flashmap parses to the document it was written from |
| Repackage.FinishedMembers | src/zipper.c:1003-1030 | the flashmap member takes nothing away but a programmer of its name |
| Repackage.LoadedTrace | src/zipper.c:912-1001 | a storage receives what was stored and erased first and then the patches, exactly when its operations are kept |
| RepackageTheorems.PackageRoundTrip | src/zipper.c:867-1074 | a package loads exactly when every operation is readable and every image is in a slot other than 0 and not empty; it gives the same images by id, and the same actions on every storage exactly when every operation is kept with these files, as faithful ones always are |
| Repackage.AllFaithfulIff | src/zipper.c:306-335 | a list of operations is kept whatever its files hold exactly when every operation in it is faithful |
| RepackageTheorems.OrderIff | src/zipper.c:979-998 | the order is kept, too, exactly when no write or erase followed a patch on that storage |
| RepackageTheorems.FlashingThePackage | src/firehose.c:1879-1962 | for operations that are kept with these files, flashing the package and flashing the files both fail, or leave every storage with the same contents |
| RepackageTheorems.CreateZipThenLoad | src/zipper.c:867-1074 | writing a package and reading it back, run one after the other |
| Meaning.CommandSent | src/firehose.c:1145-1187 | what a device reads in the attributes of the command for an operation, by their names, is the operation's action, its texts cut at 127 characters and missing ones printed as such, and the slot and file it is for |
| Meaning.SeenWhole | src/firehose.c:80-89 | nothing of an action is lost in its command exactly when its start sector and value are given and its texts have up to 127 characters |
| Meaning.PartsOfTrace | src/firehose.c:1879-1962 | the trace of stores and erases and the trace of patches are the parts of the whole trace |
| Meaning.WipedExactly | src/firehose.c:650-701 | an erase takes exactly the sectors of its range, or all of its partition without a range |
| Meaning.ArrangedIff | src/zipper.c:979-998 | moving patches behind everything else changes a trace exactly when something followed a patch |
| Meaning.RunIsTraces | src/firehose.c:1879-1962 | a run succeeds exactly when no storage's trace has a failure, and leaves every storage as its trace makes it |
| Wire.ProgramOnTheWire | src/firehose.c:1093-1256 | a program has frames exactly when it has an action with sectors; a device reads that action in the attributes of the first frame, and the others are the action's data cut into pieces, a fill being in phase |
| Wire.CommandOnTheWire | src/firehose.c:650-701 | erases and patches are one frame each, and a device reads their action in its attributes |
| Wire.ReadOnTheWire | src/firehose.c:1258-1300 | a read is one frame, and a device reads in it where to read and how much |
| Wire.ConfigureOnTheWire | src/firehose.c:535-618 | configuring is one command with the storage and the payload size of the host, and a second one with the size in the simulator's answer exactly when that is another |
| ProgrammerArchive.OutputFile.WriteEntry | src/programmer.c:255-284 | the file grows by one entry, header and data padded to 4; data of 4 GiB and more is refused |
| ProgrammerArchive.SaharaArchiveWrite | src/programmer.c:286-340 | the entries of slots 1 to 127 in order and the trailer, exactly when there is an image and none is too large |
| ProgrammerArchive.ParseAsciiHex32 | src/programmer.c:40-55 | eight hexadecimal digits of either case, or none |
| ProgrammerArchive.DecodeProgrammerArchive | src/programmer.c:71-158 | the table afterwards is that of the abstract decoder; nothing is touched when there is no archive, and nothing left after an error |
| ArchiveTheorems.HexFieldReadsBack | src/programmer.c:40-55 | the reader inverts "%08x" on every 32-bit number |
| ArchiveTheorems.Aligned | src/programmer.c:131-145 | the reader's alignment of positions and the writer's padding of lengths agree |
| ArchiveTheorems.EntryReads | src/programmer.c:86-145 | an entry is understood as it was written, wherever it stands |
| ArchiveTheorems.EntryLayout | src/programmer.c:255-284 | where everything stands in an entry of the "newc" format: magic, inode, mode, sizes, name and data |
| ArchiveTheorems.StoredNameIff | src/programmer.c:319-325 | an image comes back with its basename exactly when that has no colon and fits the 128-byte field; one without a name comes back without |
| ArchiveTheorems.ArchiveRoundTrip | src/programmer.c:71-340 | decoding what was written restores every image of slots 1 to 127: id, content, and the name that its entry holds |
| ArchiveTheorems.ArchivedIff | src/programmer.c:286-340 | there is an archive exactly when slots 1 to 127 have an image and none of 4 GiB or more |
| ArchiveTheorems.EntriesIff | src/programmer.c:286-340 | the entries are numbered from 1 on without gaps |
| ArchiveTheorems.WriteThenDecode | src/programmer.c:71-340 | the same for writer and decoder run one after the other |
| ArchiveTheorems.OverrunIff | src/programmer.c:90-144 | reading goes behind the end of a file exactly when it gets to an entry for an image with some data and fewer bytes behind its name and data than alignment skips |
| ArchiveTheorems.OverrunExample | src/programmer.c:100-139 | an entry of 115 bytes with one byte of data, which is looked for at byte 116 |
| ArchiveTheorems.NoDataExample | src/programmer.c:90-144 | the same entry of 114 bytes without data is read, and the file refused for want of a further header |
| Selectors.SelectorIsKnown | src/contents.c:572-590 | a pair is known exactly when it is in the list |
| Selectors.StorageHasFlavoredEntries | src/contents.c:605-621 | whether a program or patch of the storage has a flavor |
| Selectors.CollectValidSelectors | src/contents.c:623-657 | the valid pairs, each once, in the order of the entries |
| Selectors.ValidExactly | src/contents.c:605-657 | they are exactly those that an entry mentions, a pair without flavor only for a storage without flavored entries, and without repetition |
| Selectors.SelectByStorage | src/contents.c:685-702 | the matches are counted and the last one is kept |
| Selectors.SelectByFlavor | src/contents.c:704-722 | likewise by flavor |
| Selectors.ContentsDecodeSelectors | src/contents.c:724-878 | the selectors of a pattern are those of the decoding function |
| Selectors.ResolveExactly | src/contents.c:768-853 | a bare token resolves exactly to the one valid pair it picks, a pair exactly to itself when it is valid |
| SelectorTheorems.BareFlavorExactly | src/contents.c:704-722 | a bare token that names no storage stands for a pair exactly when that is the only valid one of the flavor |
| SelectorTheorems.BareStorageExactly | src/contents.c:685-702 | one that names a storage stands for a pair exactly when that is the only valid one of the storage |
| Selectors.PatternExactly | src/contents.c:768-865 | a pattern is decoded exactly when each token stands for a valid pair and no storage comes twice |
| SelectorTheorems.PatternReadsBack | src/contents.c:768-865 | any choice of valid pairs of different storages, written as storage or storage/flavor with commas between, is decoded to just these pairs |
| Selectors.NoPatternExactly | src/contents.c:747-763 | without a pattern there must be one valid pair only |
| ContentsLoad.ContentsReader.LoadContents | src/contents.c:880-958 | loading succeeds exactly when a pattern is decoded to some pairs and every file that is used loads; what is loaded is, for each pair in order, one configuration, then the program files and then the patch files of its storage or of none and of its flavor or of none, in the order of the entries, and nothing else |
| ContentsFiles.ContentsFromFiles | src/contents.c:917-958 | the operations of a pattern are those of exactly these files |
| ContentsFiles.ContentsLoadIff | src/contents.c:917-958 | a pattern loads exactly when it picks some pair and each of these files loads |
| ContentsFiles.OtherFilesDoNotMatter | src/contents.c:930-952 | the files of all other entries may hold anything |
| ContentsTheorems.ContentsArePackable | src/contents.c:917-958 | what is loaded for any pattern has patches last on every storage, and packs into a package that loads exactly when all images have labels and means the same when start sectors are given and plain images used from their start |
| ContentsTheorems.ContentsToPackage | src/contents.c:880-958 | from contents.xml to a package to the device: every storage ends as when the files themselves are flashed |
| Utf16.Utf16ToUtf8 | src/gpt.c:70-134 | the buffer holds the encodings of the code points up to a NUL, as many as fit, and a NUL |
| Utf16.NeverTruncated | src/gpt.c:136-199 | with room for more than three bytes a unit, as the 144 bytes for 36 units are, nothing is cut off |
| Utf16.NameSurvives | src/gpt.c:70-134 | a well-formed UTF-16 name becomes the UTF-8 of the same code points, whole and without a NUL |
| Utf16.UnpairedReplaced | src/gpt.c:81-105 | a surrogate without its partner becomes U+FFFD, a high one taking its neighbour with it |
| Utf16.EncodingIsInjective | src/gpt.c:90-131 | names are equal exactly when their code points are |
| Utf16.OneDecodes | src/gpt.c:110-131 | the bytes written for a code point are its UTF-8 by section 3 of RFC 3629 |
| Gpt.PartitionTables.LoadEntries | src/gpt.c:177-230 | the sector-at-a-time loop lists exactly the entries in use of the flat array, in index order, exactly when all its sectors can be read and no entry is behind the buffer |
| Gpt.NeverBehind | src/gpt.c:141-196 | sectors of up to 4096 bytes have no entry behind the buffer |
| Gpt.PartitionTables.LoadTableFromPartition | src/gpt.c:136-233 | a table that cannot be read ends the search, one without a header counts as empty, one with a bad header fails; told apart from one with an entry behind the buffer |
| Gpt.PartitionTables.LoadTables | src/gpt.c:235-251 | the tables of all physical partitions in order; with any partition known nothing is read again |
| Gpt.PartitionTables.FindByName | src/gpt.c:253-298 | the first match, exactly when no other of that name is on the same physical partition; others are not looked at |
| GptTheorems.FoundExactly | src/gpt.c:253-298 | a partition is found exactly when it is the first of the name, on the physical partition that is asked for if any, and the only one of the name on its own |
| GptTheorems.SlotReadsBack | src/gpt.c:190-217 | an entry that was laid out by section 5.3.3 of the UEFI specification is listed with its name and inclusive size, an unused one not at all |
| GptTheorems.ArrayReadsBack | src/gpt.c:177-230 | an array laid out entry by entry is listed entry by entry |
| GptTheorems.HeaderReadsBack | src/gpt.c:31-47 | a header that was laid out by section 5.3.2 of the UEFI specification is read back: where the array is, how many entries, how large |
| GptTheorems.TableReadsBack | src/gpt.c:136-233 | a disk with a header in sector 1 and an array where the header says is listed slot by slot |
| GptTheorems.TableRefused | src/gpt.c:173-183 | a header that asks for more than 1024 entries, or for entries that are smaller than 128 bytes or do not divide a sector, is refused |

## Left out

- libusb, the Windows port, the automatic backend, the nbdkit plugin: foreign calls.
- The insides of libxml2 and libzip; documents are attribute records, archives maps. libzip refuses a member whose range reaches beyond its file, and the model does so at once.
- Sahara upload and ramdump, programmer XML files, UFS provisioning, command line parsing, classification of arguments: packet plumbing and shallow branching.
- Terminal output, progress, rates, statistics: presentation only.
- Clocks and timeouts: a timeout is something that the transport delivers. Allocation failures, and with them the growing of the JSON buffer.
- MBN signing: an external tool; only that the payload is found again in what it returns.
- Path resolution and probing for files: filenames are taken as resolved. Include directories do not appear.
- Error messages, among them those of the JSON parser.
- Rounding of JSON numbers to doubles: numbers are exact; those that round to infinity are refused.
- Set-bootable, reset and digest operations as steps of a run, and deferred partition names in operations; the digest request appears in skipblock.
- Detecting the sector size while configuring; it is known from the start in a run.
- `gpt_find_by_name` on the simulator, which reports sector 0 for every name.
- Legacy flashmap specifiers: layouts and storage filters are taken as decoded.
- contents.xml parsing and the choice of programmers: entries and images are given.
- VipSession.CreateSignFlash: the operations, files and settings are the same in both runs, as digest tables demand.
- Programming.ProgramSkipblock: regions whose chunk offset would wrap in 32 bits, where the loop does not end or goes through the region again.
- SparseTheorems.FirehoseProgram: fill chunks with a payload size that is no multiple of 4, for which the pattern would be written behind its buffer.
- Transport.RawModeSplits: each XML message arrives whole in one delivery, as the code expects.
- RepackageTheorems.PackageRoundTrip: documents and the flashmap stay below 2 GiB, and the documents survive the XML library.
- Gpt.PartitionTables.LoadEntries: sectors of fewer than 512 bytes, which would not fill the header; with sectors larger than 4096 bytes, everything from the first entry on that is not whole in the buffer, although the walk goes on past one whose type is still in it and unused.
- ProgrammerArchive.DecodeProgrammerArchive: what the table holds after the decoder has read behind the end of a file, or after a digit that ends the program; the file is taken to be loaded at an aligned address.

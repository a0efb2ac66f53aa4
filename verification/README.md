# Verified models of Limine and runit

Dafny models of the parts of the Limine bootloader and of the runit supervisor that are decided by
code rather than by hardware, with proofs of what they promise. Each component is modelled in the
form its source has: state that is updated in place is a class or an array, loops are loops with
invariants, and every such method is proved against a specification whose properties are then
lemmas. Check everything with `dafny verify dfyconfig.toml`.

| Component | Files | Main result |
|---|---|---|
| LimLZ packer and boot decompressor | `SuffixArray`, `LimLzMatches`, `LimLzFormat`, `LimLzParse`, `LimLzStreams`, `LimLzFailure`, `LimLzCrowded`, `LimLzPack`, `Crc32` | the boot stage recovers the input from every image the packer writes; no stream of the decoder's format over the matches found is over a byte shorter; which sources fail, and when the message about them is true |
| Installer device, undo log, GPT conversion | `UndoLog`, `Device`, `InstallDevice`, `GptErase`, `BiosInstall` | the cache refines a flat byte array; a failed install is undone, with the exact condition for a failed write; at most 141 undo records; partitions keep their bytes and one is active; exactly when an install succeeds and when it leaves a GPT header |
| Volume, FAT chains and file reads | `Volume`, `FatChain`, `FatFile`, `FatLayout` | a file laid out on the medium is found and read back; every in-bounds read of an accepted file returns exactly its bytes; the cycle bound rejects no chain that ends |
| Logical partitions | `Ebr`, `EbrLayout` | partitions laid out one to a boot record are found where they were put; probing with the resume memo agrees with a walk from the head |
| EFI memory map | `EfiMap` | the rebuilt map covers the same pages with the right types, exactly unless a descriptor wraps around; the panic is unreachable |
| Boot menu | `MenuPath`, `MenuTree` | a printed path finds its entry, at the index where it is shown, exactly when the entry prints as something |
| runsv | `Taia`, `Runsv` | safety over every run of commands, child exits and time; what is wanted is started, and restarted |
| svlogd | `Svlogd` | no byte is lost across rotations inside a flush; exactly when a rotation over a full buffer loses some |
| BLAKE2b streaming | `Blake2b` | every split of a message hashes to the block-by-block definition in section 3.3 of RFC 7693 |

`Bytes`, `Blocks` and `Counting` hold the shared arithmetic, slicing and pigeonhole facts. The
standard library's sort, the disk, the host file and the process table are methods that may do
anything their documentation allows: any order of ties, partial transfers, failures at any point,
any fresh process number. The ticks of the clock, the children that exit and what the control scripts
answer, and the number of bytes each `write` accepts are inputs that the results hold for all of.

Points where the code does not meet the obvious reading, each with its exact condition:

- An install can leave a GPT header behind. The reserve of an alternate whose block number is less
  than the reserve's size wraps around 64 bits, and the conversion erases nothing of it; a usable
  range that starts at block 0 or 1 keeps the primary header. By itself the conversion leaves no
  header if and only if every one lay in the primary's reserve or in that of a signed alternate,
  behind the usable range (`GptErase.GoneExactly`; `GptErase.UsualIsRemovable` for the usual layout).
  The finished install has written stage 2 over the same sectors: it leaves none if and only if the
  image brings no signature to a header's place and every header outside the reserves is written
  over (`GptErase.GoneAfterInstall`, `BiosInstall.ConvertAndInstall`). An image of 16392 bytes or more
  without a signature always does (`GptErase.LongImageRemoves`); a header in block 20 survives every
  image of up to 10240 bytes (`GptErase.HeaderSurvives`).
- A conversion can go through and then be refused by the checks of the install behind it, and is
  undone: `BiosInstall.ConvertsThenRefuses`. `BiosInstall.DecentAfter` states exactly when, in terms of
  the content before the conversion.
- The packer's failure message says that a stretch of over 270 bytes contains no repeated 4-byte
  sequence. `LimLzFailure.MessageMisleads` is a source it cannot pack although every such stretch
  contains one, more than 65535 bytes back; in `LimLzCrowded.CrowdingMisleads` everything is within
  reach, and the window of 32 neighbours misses it. What is always true is
  `LimLzFailure.FailureHasBarrenStretch`: every earlier occurrence there is out of reach or crowded
  out of that window. `LimLzFailure.MessageTrueWithin` is a sufficient condition for the message.
- `rotate` picks its file name before it flushes. A flush that rotates in turn uses that name up, and
  the outer rename then replaces the nested archive. `Svlogd.LogDir.Rotate` states exactly when, for
  any lengths the writes may have; `Svlogd.RotatesAlways` and `Svlogd.RotatesSometimes` say which
  buffers rotate however the writes are cut, and which may. The logger always flushes first, so
  whole runs lose nothing.
- A device write that fails after its save-read leaves bytes changed that no undo record covers.
  `Device.Device.AbortInstall` states when the undo still restores the device: if and only if every
  uncovered byte was intact on the device itself. `Device.FailedWriteIsLost` is a write where not.
- The `k` command sets a service down while its child may still be tracked. The one-child and
  spacing guarantees survive every continuation (`Runsv.Supervisor.KillThenRun`) if and only if no
  child was tracked and a restart was due: otherwise a `u` next breaks one of them
  (`Runsv.Supervisor.KillThenUp`).
- A leaf without a name inside a directory prints a path that names the directory.
  `MenuTree.FindsExactlyPrintable` states for which leaves the path leads back.
- The rebuild computes a descriptor's end in 64 bits. `EfiMap.ExactUnlessWrapped` states that the
  rebuilt map is exact if and only if no end wraps around.

## Model

| member | source | states |
|---|---|---|
| SuffixArray.SaCmpDoubles | limine/tools/limlzpack.c:91-100 | over ranks that order suffixes by k bytes, the comparator decides their order by 2k bytes |
| SuffixArray.PrefixCmpSeparates | limine/tools/limlzpack.c:114-124 | two different suffixes never tie once k reaches the input size, so the doubling loop ends |
| SuffixArray.PrefixCmpIsSuffixLess | limine/tools/limlzpack.c:91-100 | a strict comparison at any depth is the textbook lexicographic order |
| SuffixArray.QSort | limine/tools/limlzpack.c:116 | the library sort: an ordered rearrangement, ties in any order |
| SuffixArray.NewRanks | limine/tools/limlzpack.c:117-119 | ranks along the sorted order step by one exactly at a strict increase |
| SuffixArray.RenumberedAllDistinct | limine/tools/limlzpack.c:117-123 | the last rank is n-1 exactly when no two suffixes tie on the compared bytes |
| SuffixArray.Round | limine/tools/limlzpack.c:114-124 | a round keeps a permutation and turns ranks for k bytes into ranks for 2k bytes |
| SuffixArray.Saca | limine/tools/limlzpack.c:107-126 | for every input the result is the suffix array, a permutation in strict suffix order, and its inverse |
| SuffixArray.SuffixArrayUnique | limine/tools/limlzpack.c:107-126 | there is only one suffix array, so ties in the sort decide nothing |
| LimLzMatches.LcpBytes | limine/tools/limlzpack.c:128-132 | the length of the longest common prefix of two suffixes |
| LimLzMatches.BestNeighbor | limine/tools/limlzpack.c:152-182 | a true repeat of at least four bytes at one of the 64 neighbours, and none of them offers a longer one |
| LimLzMatches.LongestMatches | limine/tools/limlzpack.c:137-185 | every position gets the best choice among its suffix-array neighbours |
| LimLzMatches.BetweenSharesPrefix | limine/tools/limlzpack.c:157-175 | suffixes between two others share at least what those two share |
| LimLzMatches.MissedMatchIsCrowdedOut | limine/tools/limlzpack.c:86-175 | a longer match is missed only if all 32 neighbours on that side share as much and none is eligible |
| LimLzFormat.Decompress | limine/stage1/decompressor.asm:39-80 | the token loop as a machine computes the recursive meaning of the stream |
| LimLzFormat.CopyMatchRepeats | limine/stage1/decompressor.asm:73-77 | the byte-by-byte copy of a repeat, overlapping or not, extends the output by the source's next bytes |
| LimLzFormat.MatchTokenFields | limine/tools/limlzpack.c:299-314 | literal count, match length and offset width come back from the token byte untruncated |
| LimLzFormat.DecodeMatchStep | limine/tools/limlzpack.c:287-328 | decoding an emitted match token consumes exactly its bytes and yields exactly its span of the source |
| LimLzFormat.RoundTrip | limine/tools/limlzpack.c:286-336 | decoding the stream of any parse over true repeats gives back the source, closing zero token included |
| LimLzFormat.EncodedSize | limine/tools/limlzpack.c:286-338 | the stream has the parse's cost in bytes, plus one if the parse ends on a match |
| LimLzFormat.EncodedFitsTwice | limine/tools/limlzpack.c:286-392 | no parse needs more than twice the input, closing token included |
| LimLzStreams.RunLimit | limine/stage1/decompressor.asm:41-52 | some header makes the decoder copy a run of so many literals exactly when they are at most 15 + 255 |
| LimLzStreams.CopyLimit | limine/stage1/decompressor.asm:55-76 | some header makes it copy a match of so many bytes exactly for 4 to 4 + 7 + 255 |
| LimLzStreams.ReachLimit | limine/stage1/decompressor.asm:55-62 | and from so far back exactly for 1 to 65535 |
| LimLzStreams.StreamIsParse | limine/stage1/decompressor.asm:39-80 | every byte stream that decodes to a source over the matches found is a parse of it that costs no more than the stream and one byte |
| LimLzStreams.NoStreamBeats | limine/tools/limlzpack.c:228-284 | so the least cost is at most a byte above the length of any such stream, and without a parse there is none |
| LimLzStreams.ShortIsPackable | limine/tools/limlzpack.c:258-284 | 1 to 270 bytes can be packed whatever they are |
| LimLzStreams.ChoicesAreLongest | limine/tools/limlzpack.c:152-182 | no repeat at one of the 32 neighbours on either side and at most 65535 bytes back is longer than the match chosen |
| LimLzParse.ChooseMatch | limine/tools/limlzpack.c:234-257 | the match length chosen at a position is the cheapest that leads to an encodable suffix |
| LimLzParse.ChooseStep | limine/tools/limlzpack.c:258-279 | the cost chosen is at most that of every literal run and match, and is met by its own step |
| LimLzParse.BuildParse | limine/tools/limlzpack.c:228-280 | the filled tables satisfy the optimality equations at every suffix |
| LimLzParse.PickedParseCost | limine/tools/limlzpack.c:228-280 | following the picks is a legal parse of exactly the tabled cost |
| LimLzParse.TableIsLowerBound | limine/tools/limlzpack.c:228-280 | no parse of a suffix is cheaper than its table entry |
| LimLzParse.TableIsOptimal | limine/tools/limlzpack.c:228-284 | dp[0] is the least cost over all parses, and the no-parse marker exactly when there is none |
| LimLzPack.EmitPiece | limine/tools/limlzpack.c:287-327 | one token is written, token byte patched last, exactly when it fits |
| LimLzPack.Emit | limine/tools/limlzpack.c:285-338 | emission succeeds exactly when the whole stream fits, and then writes it |
| LimLzPack.Pack | limine/tools/limlzpack.c:208-342 | a nonzero result decodes to the source and no stream the decoder would decode to it over the matches found is over a byte shorter; with room for twice the input 1 to 270 bytes never fail, and it fails exactly on sources whose matches leave no such stream, which have a stretch where nothing is usable |
| LimLzFailure.ChoicesAgree | limine/tools/limlzpack.c:137-185 | every run of the match finder on a source gives matches of the same lengths |
| LimLzFailure.PacksIffPackable | limine/tools/limlzpack.c:228-284 | whether a source can be packed is a property of the source alone |
| LimLzFailure.FailureHasBarrenStretch | limine/tools/limlzpack.c:281-284 | a source that fails has over 270 positions in a row where each earlier occurrence of the next four bytes is out of reach or crowded out |
| LimLzFailure.MessageTrueWithin | limine/tools/limlzpack.c:281-284 | sufficient for the message to be literally true of a failing source: it is within reach and its 4-byte sequences occur at most 33 times each |
| LimLzFailure.MessageMisleads | limine/tools/limlzpack.c:167-284 | a source that fails although every stretch of over 270 bytes contains four bytes that occurred before |
| LimLzCrowded.PieceIsFar | limine/tools/limlzpack.c:86-175 | between an earlier occurrence and the first of 33 copies stand the other 32 in suffix order |
| LimLzCrowded.CrowdingMisleads | limine/tools/limlzpack.c:86-284 | such a source with everything within reach, failed by the window of 32 alone |
| LimLzPack.BootsFrom | limine/stage1/decompressor.asm:81-109 | a checksum and a stream of the input pass the boot stage's check and boot to the input |
| LimLzPack.BootsExactly | limine/stage1/decompressor.asm:81-109 | an image boots to some bytes exactly when its stream decodes to them and its checksum is theirs |
| LimLzPack.PackFile | limine/tools/limlzpack.c:361-419 | every image written boots to the input, and an image is written exactly for every nonempty input below 2^31 bytes that can be packed, so for every one of 1 to 270 bytes |
| Crc32.UpdateConcat | limine/host/limine.c:705-716 | the remainder of a concatenation continues from the remainder of its front |
| Crc32.UpdateLoop | limine/host/limine.c:705-716 | the nested loops compute the running remainder |
| Crc32.FourSteps | limine/host/limine.c:705-716 | four bit steps are a shift by four and the feedback of the low four bits |
| Crc32.TableIsFeedback | limine/tools/limlzpack.c:344-349 | each table entry is the feedback of its index |
| Crc32.TwoNibblesAreAByte | limine/tools/limlzpack.c:344-356 | two table steps equal eight bit steps |
| Crc32.CrcNibble | limine/tools/limlzpack.c:351-359 | the table form computes the bitwise CRC-32 of every byte string |
| Crc32.CheckValue | limine/host/limine.c:705-716 | the checksum of the digits 1 to 9 is 0xcbf43926, as for every CRC-32 of this kind |
| UndoLog.ReverseReplayAt | limine/host/limine.c:340-346 | after the reversed replay each byte holds the earliest saved value, or is untouched |
| UndoLog.UndoRestoresExactly | limine/host/limine.c:548-577 | the reversed replay restores the original if and only if the bytes without a record are intact |
| UndoLog.UndoableMixed | limine/host/limine.c:268-294 | moving cached bytes to the device, even part of them, keeps an install undoable |
| UndoLog.UndoableWrite | limine/host/limine.c:489-546 | saving a range before overwriting it keeps an install undoable |
| Device.Device.FlushCache | limine/host/limine.c:268-294 | success makes the device equal the logical content; failure changes only bytes the cache already stood for |
| Device.Device.CacheBlock | limine/host/limine.c:296-324 | the logical content never changes, whatever fails, and success caches the block asked for |
| Device.Device.BlockIsReal | limine/host/limine.c:470-473 | the block of a 64-bit address is never mistaken for the "no block" marker |
| Device.Device.ReadRaw | limine/host/limine.c:467-487 | a successful read returns the latest written bytes and no read changes them |
| Device.Device.StoreChunk | limine/host/limine.c:532-539 | storing into the cached block changes exactly that range of the logical content |
| Device.Device.WriteChunks | limine/host/limine.c:518-540 | across blocks, a prefix of the data is written and nothing else, all of it on success |
| Device.Device.WriteRaw | limine/host/limine.c:489-546 | success overwrites the range and logs its old content; failure before the copying keeps the install undoable; a full log refuses |
| Device.Device.ReverseUndoData | limine/host/limine.c:340-346 | the log is reversed |
| Device.Device.RestoreRecord | limine/host/limine.c:559-576 | a record is written back, also when only the retry succeeds, and one that is not has been tried twice |
| Device.Device.Uninstall | limine/host/limine.c:548-598 | success means the device itself is the log replayed over the device as it stood, the cached block discarded; every record is tried, whatever failed before it |
| Device.Device.AbortInstall | limine/host/limine.c:1662-1667 | a successful undo restores the device if and only if every byte without a record was intact; on a reliable device it succeeds |
| Device.Perform | limine/host/limine.c:467-546 | one operation keeps the install undoable unless a write failed after its save-read, and uses at most one record |
| Device.RunInstall | limine/host/limine.c:1649-1667 | any sequence of reads and writes either ends with exactly its writes on the device, or its undo restores the device if and only if the bytes without a record were intact; on a reliable device in-bounds operations that the log has room for always complete |
| Device.FailedWriteIsLost | limine/host/limine.c:518-530 | a failed write across two blocks that no undo restores |
| Device.EntryArrayCrc | limine/host/limine.c:750-768 | the chunked checksum is the CRC-32 of the whole device range |
| BiosInstall.Gather | limine/host/limine.c:1153-1228 | declined exactly when over four entries are used or one fits no MBR entry; otherwise each MBR entry has exactly its GPT entry's bytes, without 32-bit wrap |
| GptErase.Probe | limine/host/limine.c:1262-1273 | whether a block carries the signature, as far as it can be read |
| GptErase.SignatureIs | limine/host/limine.c:1262-1273 | what a signature is, character by character, and where |
| GptErase.ReservesAre | limine/host/limine.c:1245-1302 | the reserves in numbers: 33, 9 and 5 blocks for an alternate and one more in front, for sectors of 512, 2048 and 4096 bytes |
| GptErase.AlternateWipe | limine/host/limine.c:1275-1293 | the part of an alternate's reserve behind the usable range, nothing when its number is less than its reserve |
| GptErase.PlanErase | limine/host/limine.c:1245-1302 | no usable block is planned, and exactly the reserves of the primary and of the signed alternates are; aborts exactly for a signed alternate not behind the usable range |
| GptErase.EraseRange | limine/host/limine.c:1304-1317 | zeroes every block of the range and changes nothing else |
| GptErase.EraseAll | limine/host/limine.c:1304-1317 | each byte is zero if erased and unchanged otherwise, with one record per block |
| GptErase.UsableIsSpared | limine/host/limine.c:1275-1302 | a block between FirstUsableLBA and LastUsableLBA is in no erased range |
| GptErase.ErasedByBlock | limine/host/limine.c:1304-1317 | a byte is erased exactly when its block is |
| GptErase.SignatureAfter | limine/host/limine.c:1296-1353 | the conversion leaves a signature exactly where there was one and its block is not reserved |
| GptErase.GoneExactly | limine/host/limine.c:1245-1353 | the conversion by itself leaves no header where a GPT reader looks if and only if every header lay in a reserve |
| GptErase.UsualIsRemovable | limine/host/limine.c:1296-1302 | so it is with two blocks in front of the usable range and alternates behind it at or past their reserve's size |
| GptErase.AlternateLeftBehind | limine/host/limine.c:1275-1289 | whatever else the disk holds, a signed alternate in block 20 that the conversion goes past and leaves in place |
| GptErase.PrimaryLeftBehind | limine/host/limine.c:1300-1306 | with a usable range from block 1 on the conversion leaves the primary header, and the stage 2 write then replaces it |
| GptErase.StaysExactly | limine/host/limine.c:1296-1647 | a signature is in the finished install exactly where the image brings one, or an old one is neither reserved nor written over |
| GptErase.GoneAfterInstall | limine/host/limine.c:1245-1647 | the finished install leaves no header if and only if none stays |
| GptErase.LeftInTheGap | limine/host/limine.c:1245-1302 | every header a conversion leaves starts within the first 16384 bytes, inside the room for stage 2 |
| GptErase.LongImageRemoves | limine/host/limine.c:1633-1637 | so an image longer than that without a signature leaves none, whatever the layout |
| GptErase.HeaderSurvives | limine/host/limine.c:1275-1637 | a header in block 20 survives a whole install with an image of up to 20 sectors, and none that covers it |
| GptErase.PlanFits | limine/host/limine.c:1304-1317 | every planned block lies on a device of whole blocks with room for the primary's reserve |
| BiosInstall.PutId | limine/host/limine.c:1333-1336 | four one-byte writes place the disk id |
| BiosInstall.PutEntry | limine/host/limine.c:1339-1348 | the five writes of an entry give its type, sectors and CHS fields and touch nothing else, not its active flag |
| BiosInstall.PutTable | limine/host/limine.c:1333-1353 | id, all entries and the signature are in place and no other byte changed |
| BiosInstall.ConvertGpt | limine/host/limine.c:1125-1358 | declined exactly when the MBR cannot list the partitions, and on a reliable device it goes through exactly when no partition is too low and no signed alternate in the way; they are listed, usable blocks past sector 0 are intact, and no GPT header is left exactly when each lay in a reserve |
| BiosInstall.CheckFlag | limine/host/limine.c:1385-1394 | legality and activity of a flag, and what forcing makes of it |
| BiosInstall.CheckStart | limine/host/limine.c:1395-1402 | whether a listed partition starts at sector 63 or later |
| BiosInstall.CheckMbr | limine/host/limine.c:1363-1462 | the verdict is decided by the content before any forcing, and only what is forced changes |
| BiosInstall.CheckHint | limine/host/limine.c:639-647 | a file-system mark is found, and by force exactly its bytes are zeroed, without bringing another about |
| BiosInstall.MarksAre | limine/host/limine.c:635-693 | what the marks are, byte by byte, and how much of each is cleared |
| BiosInstall.ValidateOrForce | limine/host/limine.c:635-693 | at any offset: without force nothing changes and it passes exactly when there is no mark; with force no mark is left and only marks change |
| BiosInstall.PutBootCode | limine/host/limine.c:1619-1647 | boot code, stage 2 and its address in place, time stamp and partition table as they were |
| BiosInstall.Prepare | limine/host/limine.c:1363-1488 | passes exactly behind a decent table with no file-system mark, or a forced one; keeps the table and everything from sector 63 on; each active flag is what it was or was forced to, but the first is 0x80 exactly when none was active |
| BiosInstall.InstallBehindMbr | limine/host/limine.c:1363-1650 | on a reliable device it succeeds exactly behind a decent table and with a stage 2 that fits; the device holds boot sector, stage 2 and its address; time stamp, table entries and everything from sector 63 on are kept, an active partition is left, and behind the image all but a cleared mark is kept; at most 16 records |
| BiosInstall.FlagsAfterConversion | limine/host/limine.c:1319-1479 | after a conversion that wiped sector 0 the flags are 0x80, 0, 0, 0 |
| BiosInstall.StageTwoFillsTheGap | limine/host/limine.c:1395-1496 | boot sector and stage 2 may fill exactly the 63 sectors in front of the first partition |
| BiosInstall.DecentAfter | limine/host/limine.c:1304-1488 | exactly when the install accepts what the conversion left, in terms of the content before it |
| BiosInstall.UsualIsAcceptable | limine/host/limine.c:1296-1488 | three sectors in front of the usable range are enough for that |
| BiosInstall.ConvertsThenRefuses | limine/host/limine.c:1304-1488 | a usable range from block 2 on with a file-system mark: converted, then refused |
| BiosInstall.ConvertAndInstall | limine/host/limine.c:1125-1650 | at most 141 undo records, never one refused; on a reliable device of whole blocks with room for the reserve and the image, success exactly when the partitions can be listed, nothing is in the way of converting, the result is acceptable and stage 2 fits; then boot code in place, every partition listed with its bytes and one active, usable blocks from sector 63 on kept, and no GPT header exactly when none stays |
| BiosInstall.Install | limine/host/limine.c:1125-1667 | the whole install: finished, a partition active, with a log that would restore the first content; or undone, exactly if the bytes without a record were intact; on a reliable device one of the two, decided by the content |
| Volume.Volume.CacheBlock | limine/common/lib/part.s2.c:19-69 | what the cache holds is what the disk holds, clipped at the volume's end; it succeeds for every block of a readable volume |
| Volume.Volume.Read | limine/common/lib/part.s2.c:71-108 | any successful read is exactly that slice of the volume, after any earlier reads and failures; in bounds on a readable volume it succeeds, past the end of one of known size never |
| FatChain.ReadEntry | limine/common/fs/fat32.s2.c:227-279 | the twelve, sixteen or twenty-eight bits of the cluster's entry, or none past the table |
| FatChain.NoRepeat | limine/common/fs/fat32.s2.c:293-312 | a walk that ends meets no cluster twice |
| FatChain.WalkIsBounded | limine/common/fs/fat32.s2.c:293-312 | no walk that ends is longer than the cluster numbers or table entries there are, for FAT12, 16 and 32 |
| FatChain.TooLong | limine/common/fs/fat32.s2.c:331-345 | a path past the bound never ends within the cap |
| FatChain.BoundIs | limine/common/fs/fat32.s2.c:293-312 | the bound is the largest that the cluster numbers, 64 MiB of them and the bytes of the table allow |
| FatChain.CountChain | limine/common/fs/fat32.s2.c:329-345 | the counting pass finds the walk's length, or there is no chain that could be kept |
| FatChain.CacheClusterChain | limine/common/fs/fat32.s2.c:284-358 | a chain is returned if and only if the walk ends within the cap, and it is that walk, its clusters distinct |
| FatFile.ChainDataAt | limine/common/fs/fat32.s2.c:360-393 | block k of the file's data is the data of the chain's k-th cluster |
| FatFile.ReadableIsOnMedium | limine/common/fs/fat32.s2.c:314-327 | a cluster within the readable limit lies on the volume |
| FatFile.WalkIsOnMedium | limine/common/fs/fat32.s2.c:314-340 | so do all clusters of a kept chain |
| FatFile.ReadClusterChain | limine/common/fs/fat32.s2.c:360-393 | a read across clusters returns what the chain holds there, and on a chain that lies on the medium that slice of the concatenated clusters |
| FatFile.FileHandle.Fread | limine/common/fs/file.s2.c:84-100 | an in-bounds read returns exactly the file's bytes and never panics while sectors can be read and the clusters lie on the medium; out of bounds it panics |
| FatFile.Open | limine/common/fs/fat32.s2.c:717-749 | an accepted file's chain covers its size, and on a volume of known size lies on the medium; a refused one has no chain that would do |
| FatLayout.TableReadsBack | limine/common/fs/fat32.s2.c:227-279 | entries packed in pairs into three bytes, or in two or four bytes little-endian, are read back, whatever the top four bits of the last |
| FatLayout.InsideIsReadable | limine/common/fs/fat32.s2.c:314-327 | the readable limit admits exactly the clusters whose bytes end on the volume |
| FatLayout.LaidOutIsWalk | limine/common/fs/fat32.s2.c:284-358 | a list of clusters linked in such a table is a walk that ends |
| FatLayout.ChainOfList | limine/common/fs/fat32.s2.c:284-358 | and then the chain kept is exactly that list, for every list of up to 0x1000000 clusters |
| FatLayout.ClusterIsPiece | limine/common/fs/fat32.s2.c:360-393 | the data of cluster 2 comes first behind the reserved sectors, tables and root, and the others follow in order |
| FatLayout.ReadLaidOut | limine/common/fs/fat32.s2.c:284-749 | any part of a file laid out in table and data area is opened and read as that part of its clusters put together |
| Ebr.ScanPasses | limine/common/lib/part.s2.c:733-780 | scanning a boot record does not depend on the number looked for until it is found |
| Ebr.HeadReaches | limine/common/lib/part.s2.c:708-804 | every walk that gets to a boot record meets it with the same count |
| Ebr.EnoughLinks | limine/common/lib/part.s2.c:708-804 | on a chain that ends, more links than it has change no answer |
| Ebr.ResumeAgrees | limine/common/lib/part.s2.c:702-706 | resuming at any earlier boot record gives the head's answer on a chain of at most 256 links, and never contradicts it |
| Ebr.ScanWellPlaced | limine/common/lib/part.s2.c:673-683 | a partition found lies inside the extended partition and inside the disk |
| Ebr.Extended.ScanSlots | limine/common/lib/part.s2.c:733-780 | the loop over the four slots is the specified scan |
| Ebr.Extended.Probe | limine/common/lib/part.s2.c:685-808 | in any order of probes the memoised answer is that of a walk from the head, well placed, and the memo stays good |
| EbrLayout.EntryReadsBack | limine/common/lib/part.s2.c:595-602 | an entry with its type at byte 4 and start and length little-endian at 8 and 12 is read back |
| EbrLayout.InsideIsContained | limine/common/lib/part.s2.c:673-683 | the checked additions pass exactly the partitions that end inside the extended partition and on the disk |
| EbrLayout.RecordScanned | limine/common/lib/part.s2.c:733-780 | a boot record with one partition and one link, in any slots, answers for its own number and passes on the link for any other, whatever else is in it to be ignored: empty entries, partitions past the second slot that do not fit, later links, and links back or out where there is no next record |
| EbrLayout.LaidOutIsAnswered | limine/common/lib/part.s2.c:685-808 | partitions laid out one to a boot record are numbered in order and answered as laid out; past them the table ends |
| EbrLayout.ProbeLaidOut | limine/common/lib/part.s2.c:685-808 | so does every probe answer, whatever was probed before |
| EfiMap.FindRun | limine/common/lib/misc.c:515-536 | the run's addresses are all owned or all not, and it ends at the top or at a region's edge |
| EfiMap.Split | limine/common/lib/misc.c:507-555 | the pieces tile the descriptor with the right types, one more than the edges cut at |
| EfiMap.TileOf | limine/common/lib/misc.c:514-555 | every address of a tiled stretch is in exactly one piece |
| EfiMap.RebuiltGrows | limine/common/lib/misc.c:500-556 | adding one descriptor's pieces keeps the exact partition with correct types |
| EfiMap.NewCuts | limine/common/lib/misc.c:500-556 | cuts in different descriptors are different edges |
| EfiMap.EdgeCount | limine/common/lib/misc.c:453-458 | regions have at most two edges each |
| EfiMap.ExactUnlessWrapped | limine/common/lib/misc.c:507-514 | the rebuilt map is exact if and only if no descriptor's end wraps around 64 bits |
| EfiMap.RebuiltMeans | limine/common/lib/misc.c:500-556 | in a rebuilt map an address in a usable region is of type 7 and any other keeps its type, so without usable regions all do |
| EfiMap.Rebuild | limine/common/lib/misc.c:495-559 | with room for the map and two descriptors per region it never panics, and the result covers the same addresses with the right types exactly unless one wraps |
| EfiMap.BufferSuffices | limine/common/lib/misc.c:447-481 | the buffer allocated has more room than that |
| EfiMap.RebuildInBuffer | limine/common/lib/misc.c:447-559 | in the buffer as allocated the rebuild never panics, and is exact exactly unless a descriptor wraps |
| MenuPath.DecimalRoundTrip | limine/common/menu.c:988-997 | a printed number is read back |
| MenuPath.Strtoui | limine/common/lib/misc.s2.c:55-76 | the number a row of digits stands for, or the largest 64-bit value |
| MenuPath.Digits | limine/common/menu.c:988-994 | the digits, last first, fit the buffer of sixteen |
| MenuPath.PutSuffix | limine/common/menu.c:986-998 | the suffix is printed whole if it and a terminator fit, and the buffer is never overrun |
| MenuPath.ParseComponent | limine/common/menu.c:943-1072 | a printed component parses back to its name and number, whatever the name holds |
| MenuPath.ParsePath | limine/common/menu.c:970-1072 | a path's first component is its first entry's and the rest is the path below |
| MenuPath.MeasureComponent | limine/common/menu.c:1013-1035 | the measuring pass gives exactly the length of the name |
| MenuPath.ParsePathComponent | limine/common/menu.c:1009-1072 | the filling pass stays in the measured buffer and gives the parsed component |
| MenuPath.SiblingDupIndex | limine/common/menu.c:929-941 | the number of shown same-named siblings before the entry |
| MenuPath.EscapeName | limine/common/menu.c:945-968 | a prefix of the escaped name and a terminator, all of it if it fits |
| MenuPath.PathOfParent | limine/common/menu.c:970-1003 | a path is the parent's path, a separator and the entry's own component |
| MenuPath.GetEntryPath | limine/common/menu.c:970-1003 | a path that fits is printed whole; the buffer is never overrun and always ends in a terminator |
| MenuTree.CountVisible | limine/common/menu.c:911-925 | the number of entries on display |
| MenuTree.FindEntryByPath | limine/common/menu.c:1077-1129 | the search, with its running index and the directories it opens |
| MenuTree.SearchArrives | limine/common/menu.c:1088-1124 | the search passes every earlier sibling, same-named or not, and arrives with the display index |
| MenuTree.FindsPrinted | limine/common/menu.c:911-1129 | searching for a printed path returns that very entry among same-named siblings |
| MenuTree.MissesUnprintable | limine/common/menu.c:1097-1112 | a nameless, numberless leaf inside a directory is not found by its path |
| MenuTree.FindsExactlyPrintable | limine/common/menu.c:911-1129 | the printed path of a shown leaf leads back to it if and only if it prints as something |
| MenuTree.ShownAtIndex | limine/common/menu.c:1088-1230 | with the directories above it open, the entry is shown at the index the search reports |
| MenuTree.PrintTree | limine/common/menu.c:1131-1230 | the entries counted are those on display, and the one selected is the one at that index, if nothing is printed or it is inside the window |
| MenuTree.ReturnToEntry | limine/common/menu.c:911-1230 | printing, searching and selecting lead back to the same entry exactly when it prints as something |
| Taia.Add | runit/src/taia_add.c:7-20 | the sum of two stamps, normal again, also when the result is one of the arguments |
| Taia.Less | runit/src/taia_less.c:7-14 | decides the order of the stamps' values |
| Runsv.TraceAppend | runit/src/runsv.c:262-382 | an event that is itself as promised keeps every promise about the whole run |
| Runsv.StartDecides | runit/src/runsv.c:262-321 | one more start keeps the guarantees exactly if it replaces no child and is due |
| Runsv.Supervisor.StopService | runit/src/runsv.c:246-260 | exactly the signals due to the child and the control scripts run, SIGTERM unless a script handles it; the log service has no scripts |
| Runsv.Supervisor.LaunchRun | runit/src/runsv.c:262-321 | one start of a new child, its time recorded |
| Runsv.Supervisor.LaunchFinish | runit/src/runsv.c:262-321 | one start of the finish script, the time of the last start kept |
| Runsv.Supervisor.StartService | runit/src/runsv.c:262-321 | exactly one start, of the run or the finish script, naming the child it replaces, which is stopped first, and the script of `u` before a run |
| Runsv.Supervisor.Ctrl | runit/src/runsv.c:322-382 | for every command byte the new state, want and exactly the events it causes; the invariant is kept |
| Runsv.Supervisor.KillCommand | runit/src/runsv.c:343-346 | the full invariant survives `k` if and only if no child was tracked and a restart is due |
| Runsv.Supervisor.KillThenRun | runit/src/runsv.c:343-605 | after such a `k` the guarantees hold for every continuation without another |
| Runsv.Supervisor.KillThenUp | runit/src/runsv.c:328-346 | `k` then `u` replaces a child exactly if one was tracked and starts early exactly if the clock says so; under a clock that has not moved the guarantees hold exactly after such a `k` |
| Runsv.Supervisor.WentDown | runit/src/runsv.c:568-573 | a service is down no earlier than a second after its last start, or has waited for it |
| Runsv.Supervisor.ReapOne | runit/src/runsv.c:549-588 | a reaped child is untracked and its service goes to finish or down; other children change nothing |
| Runsv.Supervisor.Reap | runit/src/runsv.c:540-590 | exactly the children that have exited are reaped, and each service that lost its child goes to finish or down |
| Runsv.Supervisor.StartWanted | runit/src/runsv.c:523-527 | exactly what is wanted up without a child, or has to finish, is started, the log service first |
| Runsv.Supervisor.ExitCheck | runit/src/runsv.c:595-604 | exit exactly when asked for, the service down and the log service without a child |
| Runsv.Supervisor.Turn | runit/src/runsv.c:517-605 | one turn keeps the invariant and its trace, state and wants are exactly those of its starts, exits, commands and SIGTERM; a service without a child that is wanted up, or has to finish, is started in it |
| Runsv.TurnStarts | runit/src/runsv.c:517-605 | a turn keeps the trace so far and starts what is due |
| Runsv.TurnStartsOnly | runit/src/runsv.c:517-605 | and it starts nothing else, but for the commands `u` and `o` |
| Runsv.DiesThenRestarts | runit/src/runsv.c:517-605 | a service wanted up whose child exits is started again in the next turn, its finish script first if there is one |
| Runsv.Supervisor.RunLoop | runit/src/runsv.c:517-605 | in every run each signal reaches a live child, and a service wanted at its beginning is started; without `k` no start replaces a tracked child, starts are a second apart and exit leaves no child |
| Svlogd.ArchivedAppend | runit/src/svlogd.c:295 | a file put away under a new name extends the archive by its content |
| Svlogd.LogDir.Rotate | runit/src/svlogd.c:254-309 | bytes are lost exactly when something is buffered, the file is not empty and writing the buffer rotates; otherwise they are conserved |
| Svlogd.RotatesAlways | runit/src/svlogd.c:311-365 | a buffer rotates however its writes are cut if and only if it overfills the file or ends a line where the file is nearly full |
| Svlogd.RotatesSometimes | runit/src/svlogd.c:311-365 | some way of cutting the writes rotates if and only if it overfills the file or some line in it ends where the file is nearly full |
| Svlogd.NoEarlyRotation | runit/src/svlogd.c:311-365 | as long as file and data stay a line's length below the limit nothing rotates |
| Svlogd.FullEnoughIs | runit/src/svlogd.c:361-363 | a file is nearly full at a newline within a line's length of the limit, computed in 64 bits |
| Svlogd.LogDir.Flush | runit/src/buffer_put.c:25-33 | everything buffered reaches the directory, in order, whatever rotates meanwhile |
| Svlogd.LogDir.AllWrite | runit/src/buffer_put.c:8-23 | partial writes and nested rotations add up to exactly the data |
| Svlogd.LogDir.PWrite | runit/src/svlogd.c:311-365 | a nonempty prefix is written, the file never exceeds the limit, and a file nearly full at a line's end is rotated |
| Svlogd.LogDir.PutAlign | runit/src/buffer_put.c:35-47 | archive, current file and buffer grow by exactly the data, and only the buffer if it has room |
| Svlogd.LogDir.Put | runit/src/buffer_put.c:49-69 | the same for data that may go around the buffer, which is written out first |
| Svlogd.RunLog | runit/src/svlogd.c:579-602 | over any run everything put is in archives, current file and buffer in order, no file made in the run exceeds the limit, and no line ends the current file within a line's length of it |
| Blake2b.CarryIsExact | limine/common/crypt/blake2b.c:77-80 | the carry read off the wrapped sum is the 128-bit carry |
| Blake2b.IncrementCounter | limine/common/crypt/blake2b.c:77-80 | the two words count the bytes modulo 2^128 |
| Blake2b.ChainOfPrefix | limine/common/crypt/blake2b.c:176-193 | the chain value depends only on the blocks consumed |
| Blake2b.LastBlock | limine/common/crypt/blake2b.c:176-196 | the block held back is the last block of section 3.3, for empty input and exact multiples of 128 too |
| Blake2b.HashIsFromFront | limine/common/crypt/blake2b.c:168-213 | chain and padded last block are the message taken 128 bytes at a time from its front, the rest filled up with zeros, with the bytes so far counted in two words |
| Blake2b.State.Update | limine/common/crypt/blake2b.c:168-197 | however the input is cut, the state is that of the concatenation; a finalized state stays within its buffer |
| Blake2b.State.Final | limine/common/crypt/blake2b.c:199-213 | the final chain value is the one section 3.3 of RFC 7693 defines for everything absorbed |
| Blake2b.HashParts | limine/common/crypt/blake2b.c:168-221 | any split of a message hashes to the hash of the whole, taken 128 bytes at a time from its front |
| Blake2b.Filter.Read | limine/common/crypt/blake2b.c:236-246 | sequential reads within the source hash exactly what they return, and leave a hash already taken alone; any other read panics |
| Blake2b.Filter.CheckHash | limine/common/crypt/blake2b.c:281-291 | compares the reference with the hash of what had been read when first asked |

## Left out

- Pack: allocation failures are not modelled, so failure always means lack of room or of a parse.
- Decompress: absolute addresses and 32-bit wrap-around in the boot stage are not modelled; a stream that reads outside itself or its output is an error here.
- Probe: on a chain of over 256 links a resumed probe may find what the head's limit kept it from; the contract then says only that it never contradicts the head.
- Turn: at most one command byte per service and turn, as the loop reads them; status files, pipes and the platforms without `waitpid` are left out.
- Add: seconds are unbounded; their 64-bit wrap-around is out of any clock's reach.
- GetEntryPath: what is left of a path that does not fit its buffer is not specified beyond the terminator; ten quadrillion same-named siblings, which would overrun the sixteen digits, are excluded.
- Fread: on a volume of unknown size nothing says that a chain lies on the medium; such a read may panic, but never returns wrong bytes.
- FindEntryByPath: the tree is a value with positions and a set of open directories, not linked nodes with flags; aliasing between nodes is not captured.
- PrintTree: only the index logic; drawing, widths and scrolling are left out, and `should_skip_entry` is a flag of a leaf.
- ConvertGpt: entries, the fields of the header found and the number of the last block arrive as parameters; locating and verifying a header, CHS arithmetic, the type table and the hash behind the disk id are left out.
- InstallBehindMbr: the install into a GPT partition is left out, but for its file-system check.
- Final: the byte store of the digest and the concrete mixing function are left out; the result holds for every compression function.
- RunInstall: saving the undo log to a file and loading it again is left out.
- Rotate: the post-processor, deletion of old files, UDP and reopening of directories are left out, and so is the timing of rotations.
- Rebuild: descriptor contents beyond type, start, pages, virtual start and attribute, and the firmware calls before it, are left out.
- FAT directories, long names and the checks of the boot parameter block: directory-format detail; what the checks establish is `FatChain.ContextOk`.
- Drivers, firmware tables, graphics, configuration parsing, executable loaders and the Python installer: hardware access and plumbing with little to prove.
- The integer square root in `misc.c` and the TAI label formatting of runit: easy members that no harder property needs.

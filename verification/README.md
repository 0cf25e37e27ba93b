# Verified models of Omaha

Omaha is an updater for Windows.  This project models the parts of it that have to be exact about bytes, order or
concurrency, and proves what they promise.  `dafny verify dfyconfig.toml` checks everything.

**Tagging of MSI files** (`Msi*.dfy`).  The certificate tagger edits an OLE compound file: it parses the header, the
DIFAT (the table of FAT sectors), the FAT and the directory, takes the signature stream out, and writes the file again
with a new signature in fresh sectors at the end.  `MsiTables` is the mutually recursive sector allocator, `MsiParser`
and `MsiWriter` are the loops, `MsiEditor` holds the object.  `MsiRoundTrip`, `MsiLaws` and `MsiRuns` hold the
theorems: parsing undoes writing, no other stream changes, writing is repeatable, and all of it over any number of
edits (`MsiRuns.FileRunLaws`).

**Tagging of PE files** (`Pe32.dfy`, `Pe32Laws.dfy`).  The attribute certificate table is found, split and rebuilt;
`Pe32Laws.EditLaws` and `Pe32Laws.SetForgets` speak about any sequence of edits.

**Tags in signed executables** (`TagEmbedding.dfy`, `TagObjects.dfy`).  `ApplyTag` writes a tag over a marker in the
certificate, `TagExtractor` reads it; `TagEmbedding.EmbedSequence` composes them.

**The queue timer** (`QueueTimer.dfy`, `AlarmRestart.dfy`).  Start, callbacks and the destructor as a state machine
whose steps are the entries and exits of two critical sections; `QueueTimer.RunSafe` is about every interleaving, and
`AlarmRestart.StuckExact` says when an alarm can be started again.

**Pending renames** (`PendingRenames.dfy`): a list of string pairs compacted in place, over any number of removals.
**Environment blocks** (`NameOrder.dfy`, `EnvironmentBlock.dfy`, `EnvironmentModifier.dfy`): a sorted merge.
**Command lines** (`CommandRules.dfy`, `OrderedMap.dfy`, `CommandLine.dfy`, `CommandValidator.dfy`): rules matched by
counting, and exactly when counting is right, for rules and for rule lines.  **Lines of a file** (`LineReader.dfy`): a
small buffer that refines the file.  **Log history** (`LogHistory.dfy`): a circular buffer that refines the last
characters.

`MsiExample.dfy` and `PeExample.dfy` hold small files that satisfy the hypotheses of the laws, `MsiSamples.dfy` two MSI
files byte by byte, and `TimerRuns.dfy` runs of the timer.  `Arith.dfy`,
`Sequences.dfy`, `Bytes.dfy` and `Wrappers.dfy` are the arithmetic, the facts of sequences, the byte encodings and the
optional results that the models share.

Where the code and its comments disagree, the model follows the code.  The comment on a left-over byte in a UTF-16 file
says that it is dropped; the code delivers it as a character, together with the byte that the buffer happens to hold
(`LineReader.DeliveredIs`).  The MSI certificate offset is described as the place of the SignedData; it is one sector
short of it (`MsiRuns.CertificateBehindOffset`).  A `Start` that is rejected because a timer is live has already changed
the period (`QueueTimer.DemotionFails`).  Alarms are described as started, fired and started again, also from their
callback; a restarted alarm that fires before that callback has returned is dropped, and no `Start` succeeds after it
(`AlarmRestart.RestartFails`).

## Model

| member | source | states |
|---|---|---|
| MsiFormat.DecodeEncodeHeader | common/certificate_tag/certificate_tag.go:1107-1115 | a header whose fields fit their widths is read back from the bytes written for it |
| MsiFormat.EncodeDecodeHeader | common/certificate_tag/certificate_tag.go:912-930 | writing a header that was read reproduces its 76 bytes |
| MsiFormat.DecodeEncodeDirEntry | common/certificate_tag/certificate_tag.go:1123-1126 | a directory entry is read back from the 128 bytes written for it |
| MsiFormat.MarksAre | common/certificate_tag/certificate_tag.go:700-705 | the marks of free, last, FAT and DIFAT sectors are the four highest 32-bit numbers, and sector numbers stay below the fifth |
| MsiFormat.SignatureNameIs | common/certificate_tag/certificate_tag.go:854-866 | the name searched for is the UTF-16 text of the signature stream with its terminating zero |
| MsiTables.FirstFree | common/certificate_tag/certificate_tag.go:965-971 | everything from the result on is free, and the entry before it is not |
| MsiTables.FirstFreeSlotIsFree | common/certificate_tag/certificate_tag.go:1015-1031 | for any number of DIFAT sectors, the backwards search stops at a slot that is free, is not a chaining slot, and has no live entry at or behind it |
| MsiTables.LiveAssign | common/certificate_tag/certificate_tag.go:1015-1031 | recording a FAT sector in that slot appends it to the list of live DIFAT entries, so the FAT sectors are concatenated in the same order when the file is read again |
| MsiTables.RoundFree | common/certificate_tag/certificate_tag.go:984-1008 | one round of the allocator uses one new sector, two if the DIFAT was full, and gains at least `ints - 2` free entries at the end of the FAT |
| MsiTables.Grow | common/certificate_tag/certificate_tag.go:984-1008 | the recursion ends with at least `n` free entries at the end of the FAT and never shrinks a table |
| MsiTables.RoundIsAssign | common/certificate_tag/certificate_tag.go:984-1068 | the mutually recursive calls do one round: the request for one entry made from inside the DIFAT extension always finds it and never allocates |
| MsiTables.RoundKeepsInv | common/certificate_tag/certificate_tag.go:984-1068 | one round restores the whole allocator invariant that it breaks in the middle: FAT length, distinct FAT sectors marked as such, marked and linked DIFAT sectors, header counters |
| MsiTables.GrowKeepsInv | common/certificate_tag/certificate_tag.go:984-1068 | so does the whole growth; old live DIFAT entries stay in front and no entry in use changes |
| MsiTables.GrowBound | common/certificate_tag/certificate_tag.go:984-1008 | `k` rounds of `ints - 2` entries suffice: the FAT grows by at most `k * ints` entries |
| MsiTables.GrowIdempotent | common/certificate_tag/certificate_tag.go:1081-1105 | asking again for the same room changes nothing |
| MsiFile.TablesUnique | common/certificate_tag/certificate_tag.go:797-845 | a file determines its header, DIFAT, DIFAT sectors and FAT |
| MsiFile.SectorSizeIs | common/certificate_tag/certificate_tag.go:708-717 | an accepted header calls for sectors of two to the power of its shift bytes |
| MsiFile.HeaderExact | common/certificate_tag/certificate_tag.go:912-935 | a header is accepted if and only if it starts with the eight bytes of the format, has an empty class, a shift of 9 or 12, and its first sector is in the file |
| MsiFile.DifatChained | common/certificate_tag/certificate_tag.go:815-850 | the first DIFAT sector is the one the header names, and each further one is named by the last integer of the one before |
| MsiStreams.FoundUnique | common/certificate_tag/certificate_tag.go:854-884 | a file has at most one place where the search for the signature entry ends |
| MsiStreams.ChainOfFreed | common/certificate_tag/certificate_tag.go:758-791 | freeing one sector that a chain does not visit leaves the chain as it was |
| MsiStreams.RanOut | common/certificate_tag/certificate_tag.go:760-763 | at either end mark a stream that needs more bytes is told to have run out of sectors |
| MsiParser.ReadDifat | common/certificate_tag/certificate_tag.go:815-845 | reads exactly the DIFAT and the DIFAT sectors that the file encodes, following the chain slots |
| MsiParser.ReadFat | common/certificate_tag/certificate_tag.go:797-812 | reads exactly the FAT that the live DIFAT entries name |
| MsiParser.SignedDataDirFromSector | common/certificate_tag/certificate_tag.go:854-865 | returns the first entry of the sector with the signature name, or shows that the sector has none |
| MsiParser.FindSignatureEntry | common/certificate_tag/certificate_tag.go:868-884 | walks the directory chain to the first signature entry, or shows that no place in the directory has one |
| MsiParser.CopyChain | common/certificate_tag/certificate_tag.go:758-791 | the loop of `readStream`: succeeds exactly when the chain covers the stream, returns the sector bytes cut to the stream size, zeroes exactly those bytes, frees exactly those sectors, and changes nothing else |
| MsiEditor.MsiBinary.PopulateDifatEntries | common/certificate_tag/certificate_tag.go:815-845 | fills in the DIFAT and DIFAT sectors that the file encodes |
| MsiEditor.MsiBinary.PopulateFatEntries | common/certificate_tag/certificate_tag.go:797-812 | fills in the FAT that the file encodes |
| MsiEditor.MsiBinary.PopulateSignatureDirEntry | common/certificate_tag/certificate_tag.go:868-884 | fills in the signature entry and its offset, or reports that there is none |
| MsiEditor.MsiBinary.ReadFatStream | common/certificate_tag/certificate_tag.go:758-791 | the stream of a FAT chain; with freeing, the object loses exactly its bytes and its sectors |
| MsiEditor.MsiBinary.ReadMiniStream | common/certificate_tag/certificate_tag.go:731-756 | the stream of a mini-FAT chain; even with freeing, the file and its FAT stay as they are, because copies are freed |
| MsiEditor.MsiBinary.PopulateSignedData | common/certificate_tag/certificate_tag.go:887-903 | reads the SignedData by the path its size calls for, and fails only when the stream is too short or is rejected |
| MsiEditor.MsiBinary.Populate | common/certificate_tag/certificate_tag.go:930-961 | the object is the parse of the file and satisfies the invariant; an error means that the file has no accepted parse |
| MsiEditor.CheckHeader | common/certificate_tag/certificate_tag.go:912-930 | accepts exactly the headers that the parser supports, and says which check failed |
| MsiEditor.NewMsiBinary | common/certificate_tag/certificate_tag.go:912-961 | parses a file, or fails only when it has no accepted parse; header errors occur exactly when no header is accepted |
| MsiEditor.FirstFreeFatEntry | common/certificate_tag/certificate_tag.go:965-971 | the loop finds the first entry of the run of free entries at the end |
| MsiEditor.MsiBinary.EnsureFreeFatEntries | common/certificate_tag/certificate_tag.go:984-1008 | the tables become those of `Grow`, the result starts a run of at least `n` free entries, and the recursion terminates |
| MsiEditor.MsiBinary.AssignDifatEntry | common/certificate_tag/certificate_tag.go:1015-1031 | the sector is recorded in the first free slot, after the DIFAT was extended if it was full |
| MsiEditor.MsiBinary.EnsureFreeDifatEntry | common/certificate_tag/certificate_tag.go:1038-1068 | afterwards the DIFAT has a free entry; a new DIFAT sector is linked in only if it had none |
| MsiEditor.MsiBinary.AddDifatSector | common/certificate_tag/certificate_tag.go:1045-1068 | the new DIFAT sector goes to the first free sector and is linked from the old end of the chain or from the header |
| MsiEditor.MsiBinary.BuildBinary | common/certificate_tag/certificate_tag.go:1082-1157 | the file is laid out for the SignedData; the object changes only by growing its tables and keeps its invariant; each error case leaves it unchanged |
| MsiEditor.MsiBinary.Layout | common/certificate_tag/certificate_tag.go:1090-1157 | header, DIFAT sectors, FAT sectors, signature entry and SignedData each end up in their place, and all other bytes are kept |
| MsiWriter.WriteDifatSectors | common/certificate_tag/certificate_tag.go:1128-1136 | every DIFAT sector holds its block of the DIFAT and no other byte changes |
| MsiWriter.WriteFatSectors | common/certificate_tag/certificate_tag.go:1137-1150 | every sector that a live DIFAT entry names holds its block of the FAT and no other byte changes |
| MsiWriter.LaidFromSteps | common/certificate_tag/certificate_tag.go:1107-1157 | the writing steps do not overwrite each other: the table sectors, the entry and the SignedData are pairwise disjoint |
| MsiRoundTrip.ParsedUnique | common/certificate_tag/certificate_tag.go:912-961 | parsing is a function of the file |
| MsiRoundTrip.TablesBack | common/certificate_tag/certificate_tag.go:1082-1157 | the tables that are written are read back |
| MsiRoundTrip.DirectoryBack | common/certificate_tag/certificate_tag.go:868-884 | the search in the written file ends at the same directory entry, which now describes the new SignedData |
| MsiRoundTrip.SignatureBack | common/certificate_tag/certificate_tag.go:731-792 | the new chain covers the SignedData, gathers exactly it, and is freed again by the parser |
| MsiRoundTrip.RoundTrip | common/certificate_tag/certificate_tag.go:731-1157 | parsing the written file gives the SignedData, the same entry and the tables that were written, for every MSI that satisfies the invariant and every SignedData of at least 4096 bytes, under 2^31 for DLL version 3 |
| MsiLaws.LaidUnique | common/certificate_tag/certificate_tag.go:1082-1157 | the parsed MSI and the SignedData determine every byte of the output |
| MsiLaws.WriteTwice | common/certificate_tag/certificate_tag.go:1081-1157 | a second call with the same SignedData leaves the object alone and yields the same bytes |
| MsiLaws.PaddedWithZeros | common/certificate_tag/certificate_tag.go:1117-1119 | behind the old contents everything that is not written is zero |
| MsiLaws.GrownInv | common/certificate_tag/certificate_tag.go:1090-1105 | growing the tables for a SignedData keeps the invariant of the MSI |
| MsiLaws.WrittenIntact | common/certificate_tag/certificate_tag.go:1090-1156 | every FAT chain keeps its sectors and its bytes in the output, outside the signature entry |
| MsiLaws.ParsedFrees | common/certificate_tag/certificate_tag.go:887-903 | for a signature in sectors of its own, parsing frees exactly these and zeroes exactly its bytes; for one in the mini stream it frees and zeroes nothing |
| MsiLaws.SignedDataWhole | common/certificate_tag/certificate_tag.go:731-790 | the SignedData has the size its entry says, and the mini FAT and the mini stream are read as a whole |
| MsiLaws.ParsedIntact | common/certificate_tag/certificate_tag.go:758-791 | parsing leaves every chain that shares no sector with the signature as it was |
| MsiLaws.UnparsedIntact | common/certificate_tag/certificate_tag.go:758-791 | every chain of the parsed MSI is a chain of the file, with the same bytes |
| MsiLaws.ParsedInv | common/certificate_tag/certificate_tag.go:912-961 | the parse of a well-formed file satisfies the invariant of the MSI |
| MsiRuns.WrittenWellFormed | common/certificate_tag/certificate_tag.go:1082-1157 | the file that is written is well-formed, with the same directory |
| MsiRuns.EditRoundTrip | common/certificate_tag/certificate_tag.go:912-1157 | one edit reads back and leaves a file that can be parsed and edited again |
| MsiRuns.EditIntact | common/certificate_tag/certificate_tag.go:912-1157 | one edit, written and parsed again, leaves every other stream as it was |
| MsiRuns.EditRunLaws | common/certificate_tag/certificate_tag.go:912-1157 | any number of edits: the invariant stays, every file is well-formed, the last SignedData is there, no other stream changes |
| MsiRuns.FileRunLaws | common/certificate_tag/certificate_tag.go:912-1157 | from file to file: after any number of edits of a well-formed MSI the last SignedData is parsed at the same entry, and every stream of the first file other than its signature has the same sectors and bytes in the last |
| MsiRuns.Version3Exact | common/certificate_tag/certificate_tag.go:887-896 | with DLL version 3, parsing the written file gives back the SignedData if and only if it is shorter than 2^31 bytes |
| MsiRuns.CertificateBehindOffset | common/certificate_tag/certificate_tag.go:1186-1189 | the reported certificate offset leaves out the header sector: the SignedData starts exactly one sector behind it |
| PeExample.SmallFileParses | common/certificate_tag/certificate_tag.go:500-525 | for any SignedData that is accepted and measured as a whole, a file with it behind small headers is parsed and satisfies the hypotheses of the PE laws |
| PeExample.PlusFileParses | common/certificate_tag/certificate_tag.go:167-198 | the same for a PE32+ file, whose data directory is 16 bytes further on |
| PeExample.PaddingReported | common/certificate_tag/certificate_tag.go:613-620 | the padding trap on these files, for any two accepted SignedData whose sizes are 2 and 0 modulo 8 |
| PeExample.MarkedFileSuitable | omaha/base/extractor.cc:206-256 | a file of 400 bytes satisfies the hypotheses of the laws about embedded tags |
| MsiExample.SmallMsiInv | common/certificate_tag/certificate_tag.go:912-961 | an MSI with one FAT sector and one directory sector satisfies the hypotheses of the laws about the object |
| MsiExample.SmallMsiFile | common/certificate_tag/certificate_tag.go:1082-1158 | for SignedData of up to 126 sectors the object writes a file that is well-formed and parses to that SignedData, so the hypotheses of the laws about files are satisfied |
| MsiSamples.ShortFileParses | common/certificate_tag/certificate_tag.go:731-790 | a file of 2560 given bytes, with sectors of 512 bytes and any 100 bytes of signature in mini sectors 5 and 2 of 64 bytes, is parsed to these bytes |
| MsiSamples.LongFileParses | common/certificate_tag/certificate_tag.go:731-790 | a file of 20480 given bytes, with sectors of 4096 bytes and any 5000 bytes of signature in sectors 3 and 2, is parsed to these bytes |
| Pe32.ReadDirectory | common/certificate_tag/certificate_tag.go:149-220 | a directory that is accepted has 5 to 4096 entries and lies in the part of the optional header that could be read; no slice is out of range |
| Pe32.SizeOffsetExact | common/certificate_tag/certificate_tag.go:205-248 | the computed size offset is the one the size was read from if and only if the declared optional header lies in the file |
| Pe32.DirectoryExact | common/certificate_tag/certificate_tag.go:122-215 | a data directory is read if and only if the bytes say so field by field, at offset 96 of the optional header of a PE32 image and 112 of a PE32+ image |
| Pe32.TableExact | common/certificate_tag/certificate_tag.go:122-243 | a certificate table is found if and only if moreover nothing follows the directory, the fifth entry ends the file, and its size stands where it is expected |
| Pe32.CutFileMisplaced | common/certificate_tag/certificate_tag.go:237-244 | a file of 312 bytes, cut off in its optional header, that is accepted with the offset of the wrong entry |
| Pe32.EncodedSelfDelimiting | common/certificate_tag/certificate_tag.go:251-274 | an object with length octets as section 8.1.3 of ITU-T X.690 prescribes is measured as a whole, up to 65535 bytes of content |
| Pe32.LengthIgnoresRest | common/certificate_tag/certificate_tag.go:251-274 | what follows an ASN.1 object does not change its length |
| Pe32.BuildBinary | common/certificate_tag/certificate_tag.go:553-571 | the buffers are filled with the old file up to the table, the new size, the certificate header, the SignedData, the tag and its padding |
| Pe32Laws.ReadAppendedTag | common/certificate_tag/certificate_tag.go:536-549 | the loop reports a tag unless it is all zero and shorter than 8 bytes |
| Pe32Laws.TableProcessed | common/certificate_tag/certificate_tag.go:407-449 | a certificate table splits into the SignedData and the tag it was made of |
| Pe32Laws.ProcessedIs | common/certificate_tag/certificate_tag.go:407-449 | conversely, whatever is taken apart is a record as the writer makes it, with SignedData that measures itself |
| Pe32Laws.CertificateTableIs | common/certificate_tag/certificate_tag.go:553-572 | the record is its size, the bytes of revision 2.0 and of PKCS #7, the SignedData and the tag |
| Pe32Laws.SelfDelimitingIs | common/certificate_tag/certificate_tag.go:251-276 | exactly the short length form and the long forms of one and two octets measure an object |
| Pe32Laws.RoundTrip | common/certificate_tag/certificate_tag.go:500-571 | parsing the rebuilt file gives the same offsets, the same SignedData, and the tag with fewer than 8 zero bytes behind it |
| Pe32Laws.TooLarge | common/certificate_tag/certificate_tag.go:226-234 | a rebuilt file of 4 GB or more is refused |
| Pe32Laws.OneEdit | common/certificate_tag/certificate_tag.go:553-620 | one edit: the new parse has the SignedData and the padded tag asked for, and differs only in the size field and the table |
| Pe32Laws.EditLaws | common/certificate_tag/certificate_tag.go:553-620 | any sequence of edits: offsets stay, no byte outside the size field and the table changes, and the last SignedData set is there |
| Pe32Laws.SetForgets | common/certificate_tag/certificate_tag.go:583-585 | after any edits, setting a tag gives the file that depends on the SignedData and that tag only |
| Pe32Laws.SetReported | common/certificate_tag/certificate_tag.go:536-585 | a tag that was set is reported, unless it is all zero and with its padding shorter than 8 bytes |
| Pe32Laws.RemovedNotReported | common/certificate_tag/certificate_tag.go:574-580 | after a reported tag is removed none is reported |
| Pe32Laws.SuperfluousKeepsUntagged | common/certificate_tag/certificate_tag.go:613-620 | setting the superfluous certificate of an untagged file keeps it untagged if and only if old and new padding together stay below 8 bytes |
| Pe32Laws.SuperfluousSucceeds | common/certificate_tag/certificate_tag.go:613-620 | setting a superfluous certificate succeeds for every parse as long as the new file stays below 4 GB |
| Pe32Laws.PaddingAccumulates | common/certificate_tag/certificate_tag.go:613-620 | six bytes of padding are no tag, but are reported as one, all zero, once a superfluous certificate whose size is a multiple of 8 has been set |
| Pe32Laws.SetTagSucceeds | common/certificate_tag/certificate_tag.go:583-585 | setting a tag succeeds for every parse as long as the new file stays below 4 GB |
| Pe32Laws.RemoveTagExact | common/certificate_tag/certificate_tag.go:574-581 | removing a tag succeeds if and only if one is reported |
| Pe32Laws.PaddingTrap | common/certificate_tag/certificate_tag.go:583-620 | on every file whose SignedData has a size of 2 modulo 8: after an empty tag was set none is reported, and after a superfluous certificate whose size is a multiple of 8 was set, eight zero bytes are |
| QueueTimer.NextKeepsInv | omaha/base/queue_timer.cc:66-185 | every step of Start, of a callback and of the destructor keeps the invariant that ties the two critical sections, the timer handle, the kernel timers and the callbacks together |
| QueueTimer.RunSafe | omaha/base/queue_timer.cc:66-185 | in every interleaving: at most one user callback runs, none runs once the destructor is in its critical section, none is left and the object is cleared when it ends, and DoCallback always finds a timer handle |
| QueueTimer.DtorEnters | omaha/base/queue_timer.cc:66-78 | the destructor gets its lock whenever no callback holds it, with or without a live timer |
| QueueTimer.CanBeDestroyed | omaha/base/queue_timer.cc:66-185 | no deadlock: from every state of the protocol, if nothing new is begun, Start and callbacks finish, the blocking delete returns and the destructor ends |
| TimerRuns.DestroyedRun | omaha/base/queue_timer.cc:16-26 | a run in which a periodic timer is destroyed while callbacks come before and after the destructor has its lock |
| QueueTimer.DemotionFails | omaha/base/queue_timer.cc:125-140 | from any state of the protocol, once a Start with period 0 was rejected because a periodic timer is live, a callback without a handle can follow although the rule is kept from then on, because the period was overwritten |
| QueueTimer.DisciplineExact | omaha/base/queue_timer.cc:66-185 | in any state of the protocol a step keeps the rule about that if and only if no callback without a handle can follow as long as the rule is kept |
| QueueTimer.DemotionReached | omaha/base/queue_timer.cc:93-140 | such a state is reached from the new object by a Start and the entry of a second one; nothing can fail there, and after the rejection it can |
| AlarmRestart.StuckExact | omaha/base/queue_timer.cc:107-185 | in every interleaving in which no live periodic timer is started again as an alarm, once all is quiet, the handle is that of an alarm that has fired if and only if the callback of some alarm was dropped at the first critical section or found a period other than 0 |
| AlarmRestart.StuckForever | omaha/base/queue_timer.cc:107-185 | from then on, whatever is called short of the destructor, no callback comes and no Start creates a timer |
| AlarmRestart.QuietStarts | omaha/base/queue_timer.cc:125-158 | a quiet object without a handle can be started, with any period, from any thread |
| AlarmRestart.CarefulRestarts | omaha/base/queue_timer.h:20-28 | callers that start no alarm while a callback is under way, and try no period while an alarm is live, never find the object stuck |
| AlarmRestart.RuleNeeded | omaha/base/queue_timer.cc:107-180 | from any state of the protocol, once that rule was broken an alarm can be lost, although the rule is kept from then on |
| AlarmRestart.RuleExact | omaha/base/queue_timer.cc:107-180 | after any run that kept the rule, a further step keeps it if and only if no alarm can be lost as long as it is kept from then on |
| AlarmRestart.RunLost | omaha/base/queue_timer.cc:107-185 | a lost alarm stays the object's own timer until the destructor runs |
| AlarmRestart.RestartFails | omaha/base/queue_timer.cc:28-32 | a run of 17 steps in which an alarm is started, fires, and is started again by its callback, ends with the object stuck |
| TagEmbedding.FindMagic | omaha/base/extractor.cc:170-180 | the first marker of the range, or its end |
| TagEmbedding.Search | omaha/base/extractor.cc:170-180 | the scan finds the first marker |
| TagEmbedding.MarkerStays | omaha/base/apply_tag.cc:195-210 | a file that agrees up to the end of the first marker has its first marker at the same place: writing there creates no earlier one |
| TagEmbedding.Written | omaha/base/apply_tag.cc:141-213 | writing a tag buffer over the marker leaves a suitable file, and the reader returns what the 16-bit length field announces |
| TagEmbedding.EmbedExact | omaha/base/apply_tag.cc:122-213 | the old tag followed by the new one is read back if and only if together they are at most 65535 bytes long; bytes outside the tag do not change |
| TagEmbedding.EmbedSequence | omaha/base/apply_tag.cc:71-213 | any number of non-empty tags appended one after the other is read back as their concatenation behind the tag that was there |
| TagEmbedding.NoOverwrite | omaha/base/apply_tag.cc:82-86 | without the append flag a file is tagged if and only if it has no tag |
| TagEmbedding.ReadCertificateExact | omaha/base/extractor.cc:206-256 | a certificate is read if and only if the bytes say so: both image signatures, not the 64-bit machine, the fifth directory entry, the certificate inside the file and its first two bytes |
| TagEmbedding.MagicAtIs | omaha/base/apply_tag.cc:32-33 | a marker is the text Gact2.0Omaha with anything before and behind it, also at the very end |
| TagEmbedding.WriterCertDirExact | omaha/base/apply_tag.cc:180-200 | the writer finds the directory if and only if the fifth entry is there, is not empty and names bytes of the file |
| TagEmbedding.NoMarker | omaha/base/extractor.cc:165-180 | without a marker in the directory no tag is read and none is written |
| TagEmbedding.ReadTagExact | omaha/base/extractor.cc:165-205 | at the first marker two bytes, the high one first, announce the length, zero means no tag, and the tag follows |
| TagEmbedding.WideImageRefused | omaha/base/extractor.cc:230-245 | no tag is read from a 64-bit image |
| TagEmbedding.TagStringIs | omaha/base/apply_tag.h:33 | the texts that can be embedded are those of the characters of the regular expression |
| TagEmbedding.TagBufferIs | omaha/base/apply_tag.cc:141-178 | what is written is the text of the marker, the length with its high byte first, and the tag |
| TagObjects.TagExtractor.InternalReadCertificate | omaha/base/extractor.cc:111-143 | keeps the certificate directory of a file whose certificate is an ASN.1 sequence with two length bytes, and nothing otherwise |
| TagObjects.TagExtractor.ReadTag | omaha/base/extractor.cc:167-204 | without a buffer the size needed; with a buffer that is large enough the tag and a zero; with a smaller one a failure |
| TagObjects.TagExtractor.ExtractTag | omaha/base/extractor.cc:145-165 | the same from the bytes of a whole file |
| TagObjects.SizeThenRead | omaha/base/apply_tag.cc:122-139 | asking for the size and reading into a buffer of that size gives the tag of the file and its zero |
| TagObjects.ApplyTag.Init | omaha/base/apply_tag.cc:46-69 | takes a tag whose characters are all allowed, and no other |
| TagObjects.ApplyTag.ReadExistingTag | omaha/base/apply_tag.cc:122-139 | keeps the tag of the file with its zero and its length, or nothing |
| TagObjects.ApplyTag.CreateBufferToWrite | omaha/base/apply_tag.cc:141-176 | marker, length, old tag without its zero, new tag |
| TagObjects.ApplyTag.ApplyTagToBufferData | omaha/base/apply_tag.cc:178-213 | the buffer overwrites the file from the first marker on, or the file stays as it was |
| TagObjects.ApplyTag.EmbedTagString | omaha/base/apply_tag.cc:71-106 | the object leaves the tagged file of `Embed`, with its error cases |
| PendingRenames.WalkEncoded | omaha/base/file.cc:545-590 | a value that lists renames is read as exactly these renames, whatever follows their terminator |
| PendingRenames.WalkReads | omaha/base/file.cc:545-590 | everything that is read is a rename, and the part that was read is the text of the renames |
| PendingRenames.StrNCmp | omaha/base/string.cc:1117-1138 | the bounded comparison is zero exactly when the characters agree after folding |
| PendingRenames.StrNCpy | omaha/base/string.cc:1142-1164 | copies a string down over the same buffer, terminator included, and changes nothing else |
| PendingRenames.MatchIs | omaha/base/file.cc:552-556 | the comparison matches exactly the names that start with the directory, or are the directory |
| PendingRenames.KeepFacts | omaha/base/file.cc:548-590 | what is kept is what was listed and does not match, in order; it is shorter exactly when something matched |
| PendingRenames.Advance | omaha/base/file.cc:548-590 | one round of the loop reads exactly the next rename, and drops it, moves it down or leaves it |
| PendingRenames.MinusDir | omaha/base/file.cc:515-620 | the buffer ends up with exactly the renames that do not match, terminated again; found, size and error as the value determines them, with an odd number of bytes refused |
| PendingRenames.RemoveOne | omaha/base/file.cc:629-663 | after a removal the value lists the other renames, is accepted again, and has no rename of that directory |
| PendingRenames.RemovalRun | omaha/base/file.cc:629-690 | any sequence of removals leaves the renames that none of them matches, in order, and no removed directory is pending |
| PendingRenames.RemovalsCommute | omaha/base/file.cc:629-663 | the order of two removals does not show in the value |
| PendingRenames.MinusIs | omaha/base/file.cc:515-620 | what a caller gets, by the renames of the value: an error, nothing found, or the length of the text of the others |
| PendingRenames.EmptyList | omaha/base/file.cc:524-533 | two zeros are an empty list; a value without two zeros at its end is refused |
| PendingRenames.RemoveExample | omaha/base/file.cc:515-620 | one of two renames is removed from a value given character by character |
| NameOrder.CompareChain | omaha/base/environment_block_modifier.cc:25-29 | the comparison without case is a total preorder |
| NameOrder.SameIs | omaha/base/environment_block_modifier.cc:25-29 | names are the same exactly when they fold to the same characters |
| NameOrder.BelowIs | omaha/base/environment_block_modifier.cc:24-28 | a name is below another if and only if, after characters that fold alike, it ends first or has the smaller folded character |
| EnvironmentBlock.NameOfOverride | omaha/base/environment_utils.cc:34-42 | an override is read back under its own name if and only if the name holds no equals sign |
| EnvironmentBlock.MergeLookup | omaha/base/environment_block_modifier.cc:47-102 | in a sorted block, an overridden name has the override alone, an unset one nothing, and every other name the entries it had |
| EnvironmentBlock.NamelessKept | omaha/base/environment_block_modifier.cc:47-102 | strings without a name are kept |
| EnvironmentBlock.MergeSorted | omaha/base/environment_block_modifier.cc:47-102 | the result is sorted by name |
| EnvironmentBlock.MergeTwice | omaha/base/environment_block_modifier.cc:47-102 | applying the overrides a second time changes nothing |
| EnvironmentBlock.MergeValid | omaha/base/environment_block_modifier.cc:47-102 | the merge of valid strings with valid overrides has only valid strings |
| EnvironmentBlock.MergeFits | omaha/base/environment_block_modifier.cc:52-69 | the result fits into the room of the old block and the overrides |
| EnvironmentBlock.SetExample | omaha/base/environment_block_modifier.cc:70-98 | setting B in a block with A and C puts it between them |
| EnvironmentBlock.UnsetExample | omaha/base/environment_block_modifier.cc:70-98 | setting a without a value takes A out of the block |
| EnvironmentBlock.TextExample | omaha/base/environment_block_modifier.cc:59-69 | the text of a block has a zero behind each string and one behind all |
| EnvironmentModifier.SetLookup | omaha/base/environment_block_modifier.cc:33-40 | a variable that is set is the only override of its name, in the new spelling; other names are untouched |
| EnvironmentModifier.CallsThenCreate | omaha/base/environment_block_modifier.cc:33-102 | after any calls of SetVar the new block holds for every name what the last call for it says, else what the old block held |
| EnvironmentModifier.GetEnvironmentBlockLength | omaha/base/environment_utils.cc:23-30 | the length of the block with its terminator, also for an empty block |
| EnvironmentModifier.SkipBelow | omaha/base/environment_block_modifier.cc:72-75 | stops at the first string whose name is not below the given one |
| EnvironmentModifier.SkipSame | omaha/base/environment_block_modifier.cc:91-94 | stops at the first string with another name |
| EnvironmentModifier.EnvironmentBlockModifier.SetVar | omaha/base/environment_block_modifier.cc:33-40 | the map of overrides stays ordered and takes the new variable |
| EnvironmentModifier.EnvironmentBlockModifier.Create | omaha/base/environment_block_modifier.cc:47-102 | the buffer has the size computed for it, starts with the text of the merge, and is zero behind it |
| EnvironmentModifier.CreateTwice | omaha/base/environment_block_modifier.cc:47-102 | the buffer holds a block that can be modified again, and with the same overrides its text does not change |
| CommandRules.MatchesExact | omaha/base/command_line_validator.cc:148-235 | for an exact rule, counting accepts a command line exactly when all required switches are there, every other switch is optional, and argument counts agree |
| CommandRules.Counterexample | omaha/base/command_line_validator.cc:148-235 | for every other rule, a command line of its own switches and at most one unknown switch that counting decides wrongly |
| CommandRules.MatchesIff | omaha/base/command_line_validator.cc:148-235 | counting decides a rule correctly for every command line if and only if the rule is exact, a condition on its names and counts |
| CommandRules.DisjointExact | omaha/base/command_line_validator.cc:207-234 | a rule whose names are distinct, required and optional together, is exact |
| OrderedMap.InsertFacts | omaha/base/command_line_parser.cc:34-43 | a new switch takes its place in the order of the map |
| OrderedMap.InsertMap | omaha/base/command_line_parser.cc:34-43 | the map gains the new key and keeps all its other entries |
| CommandLine.ParseLine | omaha/base/command_line_parser.cc:194-253 | a line is parsed exactly when no switch is repeated, and then into the switches and arguments that stand on it |
| CommandLine.EveryLine | omaha/base/command_line_parser.cc:194-253 | every list of tokens that starts with a switch is a line; any other is refused |
| CommandLine.SwitchNamed | omaha/base/command_line_parser.cc:255-302 | the name of a switch is not empty and is in lower case |
| CommandLine.ClassifyIs | omaha/base/command_line_parser.cc:212-302 | whatever spaces surround it, a text is a required switch if it is a slash or a dash and more, without a space, plain or encoded; an optional one if a bracket comes first; and otherwise an argument as it stands |
| CommandLine.OuterSpaces | omaha/base/command_line_parser.cc:214 | every argument is such a text between spaces |
| CommandValidator.CommandLineParserArgs.AddSwitch | omaha/base/command_line_parser.cc:34-43 | a switch that is in the map is refused; a new one is added without arguments, and all other entries stay |
| CommandValidator.CommandLineParserArgs.AddSwitchArgument | omaha/base/command_line_parser.cc:46-65 | the argument is appended to those of its switch and no other entry changes; an empty name and a missing switch are the two errors |
| CommandValidator.CommandLineParser.ParseFromArgv | omaha/base/command_line_parser.cc:194-253 | the two maps become those of the token-by-token parse; an error exactly when that fails or there is no program name |
| CommandValidator.CommandLineValidator.DoesScenarioMatch | omaha/base/command_line_validator.cc:158-235 | the size check and the two loops compute `Matches`; the count is never taken below zero |
| CommandValidator.CommandLineValidator.Validate | omaha/base/command_line_validator.cc:148-177 | the first scenario in the order of names that matches, or an error |
| CommandValidator.CommandLineValidator.CreateScenario | omaha/base/command_line_validator.cc:36-44 | a name in use is refused; a new scenario is added to the map with an empty rule, and all others stay |
| CommandValidator.CommandLineValidator.AddScenarioParameter | omaha/base/command_line_validator.cc:50-78 | the parameter is appended to the rule of the scenario and no other scenario changes, or the scenario is missing |
| CommandValidator.UnusedName | omaha/base/command_line_validator.cc:91-97 | the counter stops at the first number whose name is not in use |
| CommandValidator.ScenarioNameIs | omaha/base/command_line_validator.cc:91-97 | the name of a scenario ends with its number in decimal digits |
| CommandValidator.CommandLineValidator.CreateScenarioFromCmdLine | omaha/base/command_line_validator.cc:80-146 | a rule line that can be parsed becomes one new scenario with its required and optional switches |
| CommandValidator.LineMatches | omaha/base/command_line_validator.cc:80-235 | from line to line: a command line matches an exact rule line exactly when every required switch of the rule stands on it and every switch on it stands in the rule, with as many arguments |
| CommandValidator.NotBothExact | omaha/base/command_line_validator.cc:80-146 | a rule line that lists no switch both as required and as optional is exact |
| CommandValidator.RuleLineIff | omaha/base/command_line_validator.cc:80-235 | a rule line, given as arguments, is decided as meant for every list of arguments that can be parsed if and only if the rule it stands for is exact |
| CommandValidator.UnknownPasses | omaha/base/command_line_validator.cc:207-234 | the rule line `/a [/a` matches the command line `/a /b`, although `b` is not in the rule |
| LineReader.CombineIs | omaha/base/file_reader.cc:134-144 | widening two signed bytes, shifting, joining bitwise and cutting to 16 bits gives the two bytes for a low byte below 0x80, and otherwise the low byte under 0xFF |
| LineReader.CombineExact | omaha/base/file_reader.cc:134-144 | the two bytes give the character they encode if and only if the low byte is below 0x80 or the high byte is 0xFF, because the low byte is widened with its sign |
| LineReader.UnitsExact | omaha/base/file_reader.cc:134-144 | a UTF-16 file is read as the characters it encodes if and only if that holds of each of its characters |
| LineReader.SplitJoined | omaha/base/file_reader.cc:158-196 | lines joined with any ends, CR, LF or both, are split where they were joined |
| LineReader.EndsAre | omaha/base/file_reader.cc:177-190 | lines end with 13, with 10, or with both in this order |
| LineReader.Open | omaha/base/file_reader.cc:36-81 | a file opens as UTF-16 exactly when it starts with the mark, which is skipped; a buffer too small for that is refused; the byte that a left-over byte will be joined with is determined by the file and the size of the buffer |
| LineReader.FileReader.GetNextChar | omaha/base/file_reader.cc:83-156 | delivers the next character of the file, across any refill, and consumes it unless peeking; a byte left over is joined with the byte that was foretold when the file was opened |
| LineReader.FileReader.ReadLineString | omaha/base/file_reader.cc:158-196 | for every file, delivers the next line of the characters still to come and stands behind its end, also when CR and LF are in different refills |
| LineReader.ReadLines | omaha/tools/goopdump/data_dumper_goopdate.cc:583-590 | reading until the end returns the lines of the delivered characters, for every file and every legal size of the buffer |
| LineReader.DeliveredIs | omaha/base/file_reader.cc:108-144 | what is delivered is the characters of the file, followed, for a byte left over, by that byte joined with the second byte of the buffer |
| LineReader.DeliveredExact | omaha/base/file_reader.cc:108-144 | the characters delivered are exactly those of the file if and only if no byte is left over |
| LineReader.DeliveredEncoded | omaha/base/file_reader.cc:108-144 | a UTF-16 file is delivered as the characters it encodes if and only if it has no byte left over and each character has a low byte below 0x80 or a high byte of 0xFF |
| LineReader.StaleSmall | omaha/base/file_reader.cc:83-132 | in a file that fits the buffer, a byte left over is joined with the second byte of the file |
| LogHistory.PushExact | omaha/base/logging.cc:789-801 | a message keeps the most recent characters if and only if it fits the buffer or its two ends are the same |
| LogHistory.FirstNotLast | omaha/base/logging.cc:796-801 | a message that is too long keeps its first characters |
| LogHistory.PushAllAny | omaha/base/logging.cc:789-828 | everything up to the last message that fills the buffer is forgotten but for its first characters |
| LogHistory.RunHistory | omaha/base/logging.cc:789-846 | over any run of appends and drains, a drain returns the last characters appended since the one before, in order, if every message fits |
| LogHistory.Logging.AppendToHistory | omaha/base/logging.cc:789-828 | the circular buffer holds the history after the message |
| LogHistory.Logging.GetHistory | omaha/base/logging.cc:831-846 | returns the history in order and empties the buffer |
| LogHistory.Logging.StoreInHistory | omaha/base/logging.cc:780-784 | a log record is three messages |

## Left out

- ASN.1 and X.509 (parsing SignedData, creating the superfluous certificate, finding a tag inside it): a predicate `accepts` and opaque bytes stand for them.
- Command line flags, reading and writing of files, registry access, opening and mapping of files: the bytes are parameters.  A read of a file is short only at its end and never fails.
- MSI files that are not well-formed: the tagger says that it trusts its input, and `WellFormed` spells out that trust (tables consistent, directory chain finite and readable, the signature stream readable, visiting no sector twice and owning its sectors).  A file with a header that is refused needs none of it.
- MSI files with 0xFFFFFFFB sectors or more: sector numbers have 32 bits, and growth beyond them is a precondition of the allocator.
- Pe32Laws.RoundTrip: asks that the certificate table lies behind the optional header; what goes wrong when the header is cut off is stated by `Pe32.SizeOffsetExact`.
- The 64-bit width of Go's `int`, which the PE code relies on for sums of 32-bit fields, is taken for granted.
- Sums of 32-bit fields in `extractor.cc` and `apply_tag.cc` are taken without wrap-around, and the PE header offset there as unsigned; an access behind the end of the buffer is the outcome `Overrun`.
- TagObjects.ApplyTag.EmbedTagString: asks for an object that has not embedded before and a tag that is not empty, as the assertions in the source do.
- TagEmbedding.EmbedExact: asks that the certificate directory ends the file, as the assertion in the source does.
- QueueTimer.RunSafe: the kernel is assumed to fire a one-shot timer once, not to dispatch a timer whose deletion has finished, and to wait in the blocking deletion for callbacks under way; Start is assumed not to race the destructor, and the destructor not to run inside a callback; failing kernel calls are not modelled.
- Folding of case is a function on characters, a parameter of each model that compares names; the system's own tables are not part of this model.
- EnvironmentBlock.MergeLookup: asks that the block is sorted, as the source does, and that names of overrides hold no equals sign.
- CommandLineToArgvW, which splits the text of a command line, is a parameter: lines are lists of arguments.
- CommandValidator.CommandLineValidator.CreateScenarioFromCmdLine: asks that folding twice is folding once.
- Lines read as bytes into a fixed buffer (`ReadLineAnsi`), the search for a tag inside a certificate (`findTag`), the environment of another user (`CreateForUser`), the writers of the log other than its history, and the file operations of `file.cc` other than pending renames are not modelled.

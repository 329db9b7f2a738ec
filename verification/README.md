# U-Boot command algorithms, verified

Dafny models of the stateful algorithms behind U-Boot's commands: the Kermit and S-Record serial
transfers, flash range planning, the log buffer, the EFI memory table, device-tree property
values, IDE block transfers, API device enumeration, floppy reads, the INI parser, paged EEPROM
transfers and the ARM flash footer checksum.  `dafny verify dfyconfig.toml` checks everything.

Each component has the same structure.  Pure functions say what an operation means (a framing
automaton, a plan, a stream of text, a flat memory).  Classes and methods follow the code step by
step, with its buffers, counters, wrap-around and in-place updates, and are proved equal to those
functions.  Lemmas then prove what the component is for, over every input or every run.

| file | component |
|---|---|
| `KermitWire`, `KermitMachine`, `KermitSession`, `KermitSender`, `KermitReceiver`, `KermitReplies`, `KermitFrames` | Kermit receiver of `src/cmd/load.c`, after the sections "Packet Format" and "Encoding, Prefixing, Block Check" of the Kermit Protocol Manual |
| `SRecord`, `SRecordFormat`, `SerialRecords`, `SerialLines`, `SRecordFiles` | S-Record upload and download of `src/cmd/load.c` with the decoder of `src/common/s_record.c` |
| `FlashPlan`, `FlashCover`, `FlashRefusals`, `FlashCommands` | `src/cmd/flash.c` |
| `LogBuffer`, `LogHistory` | `src/cmd/log.c` |
| `EfiMemTable` | `src/cmd/efi.c` with the sort of `src/lib/qsort.c` |
| `FdtProperty`, `FdtNumbers`, `FdtRefusals` | `src/cmd/fdt.c` with `simple_strtoul` of `src/lib/strto.c` |
| `IdeBlocks` | `src/cmd/ide.c` |
| `StorageEnum` | `src/api/api_storage.c`, `src/api/api.c`, `src/api/api_net.c` |
| `FloppyRead` | `src/cmd/fdc.c` |
| `IniParser`, `IniDocuments` | `src/cmd/ini.c` |
| `EepromPages` | `src/cmd/eeprom.c` |
| `FooterChecksum` | `src/cmd/armflash.c` |
| `Bytes`, `Division`, `Ctype` | shared arithmetic and the character table of `src/lib/ctype.c` |

## Where the code falls short of what it is for

Each of these is kept as the code has it, with the exact condition under which the promise holds.

- A Kermit length character that arrives as a control character makes the receiver take back the
  packet it accepted before (`DamagedLengthTakesBackLastPacket`): nothing is lost exactly when that
  packet delivered nothing.  The comment at `src/cmd/load.c:852-858` states the assumption.
- Control quoting with quote characters 63 to 95 does not survive `ktrans`
  (`QuotingRoundTripsExactlyForUsableQuotes`).
- A flash range plan can leave its range exactly when a bank that ends at the top of the address
  space is followed by a bank at address 0 (`PlansStayInRangeExactlyWhen`).
- A checksummed S-Record whose count field does not cover address and checksum makes load_serial
  copy a negative number of bytes (`ShortCountsAreWild`, `ShortRecordIsWild`).
- A log tag that two calls share is not seen and the line gets a second one (`SplitTagIsDoubled`);
  a history logs what its joint text would exactly when no message begins inside a tag at a line
  start (`HistoryJoins`).  Messages of more than 1020 characters run past the scratch buffer.
- A flash range that ends behind the flash is not refused but cut at its end (`SelectsExactly`), and
  `start +len` with a cover of a single byte is refused as a usage error (`ProtectPlusLength`).
- The comparison of memory descriptors orders two addresses exactly when their difference is at
  least -2^63 and below 2^63 (`CompareIsOrder`).
- A property value survives printing and typing back exactly when, as a string list, it ends in NUL,
  does not begin with `<` or `[` and has at most 1024 bytes, or, as binary, it is at most 64 bytes
  long (`PrintThenParse`).
- An IDE request reaches its own blocks exactly when it does not straddle block 2^28 and stays below
  2^48 (`AddressedExactly`, `WritesHitExactly`), since the 48-bit decision is taken once.
- Enumeration returns every active storage device exactly when the active ones come first in their
  groups (`CompleteExactlyForPrefixes`).
- A floppy read is taken from the right track exactly below track 256 (`ImageIsFlatExactly`).
- The INI parser runs off its line buffer exactly for files in which a line begins with 200 bytes
  that hold no NUL and no newline before the last of them (`OverrunExactly`).  It passes sections and
  continued names on exactly when they have fewer than 50 characters (`ReadingIsMeaningExactly`), and
  it cuts a comment off exactly behind a value that is not empty (`PairIsRead`).
- EEPROM chunks respect pages exactly for pages of at most 256 bytes (`ChunksStayInPageExactly`),
  the return code speaks for the whole request exactly when one transfer serves it
  (`CodeTellsExactly`), and a request whose end does not fit 32 bits is reported as done although
  nothing was transferred (`OverflowTransfersNothing`).

## Model

| member | source | states |
|---|---|---|
| KermitSession.QuotedDecodes | src/cmd/load.c:663-678 | for every byte string and every usable quote character, receiver decoding undoes control quoting |
| KermitSession.QuotingRoundTripsExactlyForUsableQuotes | src/cmd/load.c:546-554 | among quote characters 33..126, quoting round-trips for all strings iff the character is in 33..62 or 96..126 |
| KermitSession.DecodeConcat | src/cmd/load.c:651-678 | decoding is compositional over packet boundaries when the escape flag is carried, so a split quote prefix still decodes |
| KermitMachine.RunConcat | src/cmd/load.c:773-947 | the receiver run over concatenated input is the composition of the runs |
| KermitMachine.RunKeepsCheckpointedMemory | src/cmd/load.c:614-678 | on every input the checkpoint address never moves down and no byte below it changes |
| KermitMachine.StepKeepsCheckpointedMemory | src/cmd/load.c:859-868 | the same for each single character |
| KermitSession.HeaderArrives | src/cmd/load.c:825-868 | MARK, length and sequence of packet n set or restore the state so that both checkpoint and live state hold the content before packet n |
| KermitSession.RejectionRestores | src/cmd/load.c:929-934 | a packet rejected at any later character restores write address and escape flag to the checkpoint and sends one NAK |
| KermitSession.DamagedAttemptIsUndone | src/cmd/load.c:836-934 | an attempt with intact length and sequence that is rejected leaves no trace in memory content |
| KermitSession.FedParms | src/cmd/load.c:912-918 | for any Send packet length the parameter pointer saturates inside its buffer and the parameters kept are the first ones, in order |
| KermitSession.ShortFrameArrives | src/cmd/load.c:836-928 | a short frame with its type-1 check is accepted up to the terminator and its payload handed on |
| KermitSession.LongFrameArrives | src/cmd/load.c:878-928 | an extended-length frame with header check is accepted likewise |
| KermitSession.IntactAttemptIsTaken | src/cmd/load.c:836-945 | an intact attempt, first or repeated, delivers its payload once behind the content before it |
| KermitSession.AttemptsDeliver | src/cmd/load.c:807-945 | any number of damaged and repeated attempts ending with an intact one delivers the packet exactly once |
| KermitSession.SessionDelivers | src/cmd/load.c:773-947 | after every stop-and-wait session memory holds the meaning of the packets sent |
| KermitSession.MeaningDecodesJointly | src/cmd/load.c:663-678 | the content is the decoding of all data characters together, however they are cut into packets |
| KermitSession.FileIsDelivered | src/cmd/load.c:773-947 | the receiver finishes with returned size and memory from the start address equal to the file, and memory below it as before |
| KermitSender.SessionIsValid | src/cmd/load.c:798-804 | a sender that quotes any file, cuts the characters at any packet size and frames them short or extended produces a valid session for that file |
| KermitSender.EveryFileArrives | src/cmd/load.c:773-947 | for every byte string, usable quote character, packet size and framing, the receiver ends with exactly the original bytes and their number |
| KermitReceiver.Receiver.KDataChar | src/cmd/load.c:663-678 | one data character through the unquoting sink into memory |
| KermitReceiver.Receiver.Chk1 | src/cmd/load.c:556-564 | the type-1 check of the characters up to the NUL |
| KermitReceiver.Receiver.SendPacket | src/cmd/load.c:566-573 | padding and the buffer up to its NUL go out |
| KermitReceiver.Receiver.SendAck | src/cmd/load.c:575-586 | an ACK with length, sequence, check and terminator goes out, and every store stays inside the 24-byte buffer |
| KermitReceiver.Receiver.SendNack | src/cmd/load.c:588-599 | the same for NAK |
| KermitReceiver.Receiver.HandleSendPacket | src/cmd/load.c:686-771 | terminator, padding and quote of the sender are remembered from as many parameters as came, and the ACK offers as many back |
| KermitReceiver.Receiver.PacketError | src/cmd/load.c:929-934 | the rejection step of the automaton: restore, then NAK |
| KermitReceiver.Receiver.ReadSequence | src/cmd/load.c:844-868 | the sequence character checkpoints on a new number and restores on an old one |
| KermitReceiver.Receiver.ReadLongLength | src/cmd/load.c:878-892 | the two extended-length characters, as the automaton reads them |
| KermitReceiver.Receiver.ReadData | src/cmd/load.c:902-919 | the body loop consumes exactly the announced characters, as the automaton does |
| KermitReceiver.Receiver.ReceivePacket | src/cmd/load.c:807-945 | one turn of the main loop refines the automaton on the characters it consumed |
| KermitReceiver.Receiver.KRecv | src/cmd/load.c:773-947 | k_recv returns exactly when the automaton finishes, with the number of bytes stored; ^C gives 0; otherwise it waits for more input |
| KermitReceiver.Receiver.LoadSerialBin | src/cmd/load.c:510-535 | on any line it ends as k_recv does, a finished transfer leaves memory below the load address alone, and every line that carries a valid session leaves the file in memory and its length as filesize |
| KermitReplies.ReplyIsWellFramed | src/cmd/load.c:556-599 | every reply is accepted by the receiver's own framing up to the terminator, echoes the sequence and fits 24 bytes; the terminator is accepted iff it is CR |
| KermitReplies.EveryVerdictIsAnswered | src/cmd/load.c:920-944 | one character sends a reply iff it ends a packet: well framed, ACK iff accepted, with the link parameters in force (for a Send packet its own) |
| KermitReplies.RunIsAnswered | src/cmd/load.c:807-945 | over every run the output grows by exactly the replies to the packets that ended in it |
| KermitReplies.EveryReplyIsWellFramed | src/cmd/load.c:773-947 | from the start, whatever arrives, the output is a concatenation of well-framed replies of at most 24 bytes, one to a packet |
| KermitReplies.DamagedLengthTakesBackLastPacket | src/cmd/load.c:852-858 | a damaged length character takes the last accepted packet back; content survives iff that packet added nothing |
| KermitFrames.CheckIsFold | src/cmd/load.c:924-924 | the block check is the code's bit expression on the character sum, for every sum |
| KermitFrames.CheckSeesHighBits | src/cmd/load.c:921-925 | damage in the two high bits of one character changes the check of every packet |
| KermitFrames.KtransIsCode | src/cmd/load.c:546-554 | unquoting is the code's masks on every character |
| KermitFrames.PrintableIsCode | src/cmd/load.c:840-840 | the test for control characters is the code's mask |
| KermitFrames.AcceptsExactly | src/cmd/load.c:836-928 | behind a MARK the receiver accepts a run of characters, and at its last one, iff it is a packet of the format: lengths, no controls, header check, block check and CR written out |
| KermitFrames.BreakWrittenOut | src/cmd/load.c:803-803 | the bytes of Break packet 0 |
| KermitFrames.DataWrittenOut | src/cmd/load.c:801-801 | the bytes of a short data packet |
| KermitFrames.LongDataWrittenOut | src/cmd/load.c:878-901 | the bytes of an extended data packet with its header check |
| KermitFrames.BreakIsTaken | src/cmd/load.c:836-946 | the bytes 01 23 20 42 27 0D end the transfer |
| KermitFrames.InterruptStops | src/cmd/load.c:827-835 | between packets everything but MARK and ^C is skipped, and ^C ends the transfer with nothing changed |
| KermitFrames.NothingFollows | src/cmd/load.c:942-946 | once the transfer is over no character changes anything |
| KermitFrames.RepliesWrittenOut | src/cmd/load.c:575-599 | the bytes of ACK and NAK of packet 0, and padding before and terminator behind a reply |
| KermitFrames.OfferWrittenOut | src/cmd/load.c:700-760 | the thirteen parameters offered to a sender, the type-1 check among them |
| KermitFrames.SendParametersApply | src/cmd/load.c:686-760 | which characters of a Send packet set padding, terminator and quote, and the values for a short one |
| SRecord.HexRoundTrip | src/common/s_record.c:156-179 | reading hexadecimal anywhere in a line undoes writing it |
| SRecord.FieldByField | src/common/s_record.c:86-153 | a record accepted field by field is the one accepted by the sum over all fields |
| SRecord.SrecDecode | src/common/s_record.c:14-154 | stepping through the line decodes exactly the record format: type, count, address, data, one's-complement checksum, and a negative byte count for a count field that is too small |
| SRecord.ReadField | src/common/s_record.c:112-142 | one field: its bytes and the running sum modulo 256 |
| SRecordFormat.ReadsExactly | src/common/s_record.c:156-179 | bytes are read from a line exactly where it spells them with hexadecimal digits of either case |
| SRecordFormat.RecordIsDecoded | src/common/s_record.c:14-154 | a line with count, address, data and checksum behind its first S decodes by its fields and is good iff its bytes add up to 255 modulo 256 |
| SRecordFormat.EveryRecordDecodes | src/common/s_record.c:46-153 | S0, S1, S2, S3, S5, S7, S8 and S9 lines with two, three or four address bytes decode to their kind, address and data |
| SRecordFormat.OtherLines | src/common/s_record.c:26-84 | a line that ends with S is empty, one without a count is no record, and an unknown type is refused |
| SRecordFormat.NoRecordAtAll | src/common/s_record.c:26-36 | a line without S is empty |
| SerialRecords.Uploader.WriteDataRecord | src/cmd/load.c:338-356 | the record text with its checksum, within 48 bytes and filling them exactly for 16 data bytes |
| SerialRecords.Uploader.SaveData | src/cmd/load.c:326-363 | the loop emits the memory range, wrapped at 2^32, as consecutive S3 records of at most 16 bytes |
| SerialRecords.Uploader.SaveSerial | src/cmd/load.c:314-367 | header, S3 records of the range, end record |
| SerialRecords.ReadRecord | src/cmd/load.c:201-236 | a line up to CR or LF or the buffer end, with ^C and NUL handled |
| SerialLines.ReadLineIs | src/cmd/load.c:201-236 | the ordinary characters up to CR, LF, NUL, ^C, the end of the input or a full buffer decide what is read |
| SerialRecords.LoadSerial | src/cmd/load.c:129-199 | the load loop equals the recursive reading of the lines, with 32-bit end addresses and the copy of negative length as an outcome |
| SerialRecords.ShortCountsAreWild | src/common/s_record.c:52-63 | a good data record hands a negative length to memcpy iff its count field does not cover address and checksum |
| SerialRecords.ShortRecordIsWild | src/cmd/load.c:143-167 | the line S30300000000FC makes load_serial copy a negative number of bytes |
| SerialLines.BoundsAreExtremes | src/cmd/load.c:168-171 | over records in any order the first address is the lowest and the last the highest |
| SerialRecords.MemWriteMeans | src/cmd/load.c:166-172 | a store changes exactly its own range |
| SerialRecords.DataLineDecodes | src/cmd/load.c:340-354 | every emitted S3 record decodes to its own address and data |
| SerialRecords.LinesLoad | src/cmd/load.c:142-172 | loading consecutive records is loading their data at once |
| SerialRecords.UploadThenLoad | src/cmd/load.c:309-367 | for every non-empty range, what save_serial sends load_serial restores at its (relocated) address, nothing else changes, and the file size is the count |
| SerialLines.UploadWrittenOut | src/cmd/load.c:314-366 | the text of an upload of two bytes |
| SRecordFiles.RefusedExactly | src/common/s_record.c:38-153 | a line with an S is refused for its form iff it spells no whole record of a known type |
| SRecordFiles.FileLoads | src/cmd/load.c:129-195 | any sequence of S0, S1, S2, S3 and S5 records and other text, with either line end, loads all its data in order, and the transfer goes on |
| SRecordFiles.FileEnds | src/cmd/load.c:129-195 | the first end record completes with its address and the size, the first bad line invalidates, nothing behind counts, and without either the loader waits |
| FlashPlan.TakenSectors | src/cmd/flash.c:219-259 | the sectors taken from one bank start at the range start and end at the range end or the bank end |
| FlashPlan.PlanStaysInRange | src/cmd/flash.c:192-273 | whenever planning succeeds every selected sector lies inside the requested range |
| FlashPlan.PlanWraps | src/cmd/flash.c:257-259 | past a bank at the top of the address space planning restarts at 0 and selects the bank there |
| FlashPlan.PlansStayInRangeExactlyWhen | src/cmd/flash.c:192-273 | for disjoint banks every successful plan stays in range iff no bank ending at the top is followed by a bank at 0 |
| FlashCover.SectorsAscend | src/cmd/flash.c:208-226 | in back-to-back banks the order of sectors is the order of addresses |
| FlashCover.RangeIsCovered | src/cmd/flash.c:192-273 | a range from a sector start to a sector end in back-to-back banks is planned and selects exactly its sectors |
| FlashRefusals.BankCases | src/cmd/flash.c:223-269 | what one bank does with a range, said by sector starts and ends: take, refuse or pass over, each in exactly its case |
| FlashRefusals.NotAtStart | src/cmd/flash.c:240-269 | a range that does not start with a sector selects nothing |
| FlashRefusals.EndInside | src/cmd/flash.c:240-249 | a range from a sector start that ends inside a sector is refused |
| FlashRefusals.EndBehind | src/cmd/flash.c:240-259 | a range that ends behind the flash is cut at its end |
| FlashRefusals.SelectsExactly | src/cmd/flash.c:192-273 | in back-to-back banks a range selects sectors iff it starts with a sector and ends with one or behind the flash, and then exactly those it touches |
| FlashCommands.RoundUpFinds | src/cmd/flash.c:96-132 | rounding an address up gives the end of the sector that holds it |
| FlashCommands.RoundUpExactly | src/cmd/flash.c:96-132 | rounding finds the end of a sector of any bank, known or not, and fails iff no sector holds the address |
| FlashCommands.PlusLengthSelectsSmallestCover | src/cmd/flash.c:171-187 | `start +len` selects exactly the sectors that share an address with the range |
| FlashCommands.Flash.FlashSectRoundb | src/cmd/flash.c:96-132 | the nested search equals the recursive rounding |
| FlashCommands.Flash.ScanBank | src/cmd/flash.c:223-239 | first and last sector of one bank found by the inner loop |
| FlashCommands.Flash.PlanOneBank | src/cmd/flash.c:208-270 | one turn of the bank loop: reject, skip or take |
| FlashCommands.Flash.FillSectRanges | src/cmd/flash.c:192-273 | returns 0 iff the range can be planned; then the arrays hold the plan and the count is the number of sectors |
| FlashCommands.Flash.ProtectRange | src/cmd/flash.c:605-613 | the range form of protect, with its two failures |
| FlashCommands.Flash.FlashSectProtect | src/cmd/flash.c:619-666 | selected sectors get the flag, every other flag is unchanged; failure changes nothing |
| FlashCommands.Flash.FlashSectErase | src/cmd/flash.c:402-438 | exactly the selected sectors up to the first driver error are erased |
| FlashPlan.SelectedCounts | src/cmd/flash.c:259-259 | a plan that selects a sector has a positive count |
| FlashCommands.PlusRequestPlans | src/cmd/flash.c:171-187 | a `start +len` request from a sector start rounds to the end of the sector that holds its last byte and has a non-empty plan of exactly the sectors it touches |
| FlashCommands.Flash.EraseRange | src/cmd/flash.c:386-395 | the range form of erase, with its two failures |
| FlashCommands.Flash.ProtectPlusLength | src/cmd/flash.c:605-613 | `protect start +len` in back-to-back banks sets the flag of exactly the sectors that share an address with the range and keeps every other flag; it is refused iff the cover is a single byte |
| FlashCommands.Flash.ErasePlusLength | src/cmd/flash.c:386-395 | `erase start +len` hands exactly those sectors to the driver, bank by bank up to its first error, and returns 0 iff there is none |
| FlashCommands.Flash.ProtectStartEnd | src/cmd/flash.c:605-613 | `protect start end` sets the flags of the touched sectors iff the range selects; any other range is refused and changes nothing |
| FlashCommands.Flash.EraseStartEnd | src/cmd/flash.c:386-395 | `erase start end` reaches the driver iff the range selects, and then with exactly the touched sectors |
| LogBuffer.EmitIsTagged | src/cmd/log.c:265-309 | every new line a message logs carries one tag, and the level tells whether the next character starts a line |
| LogBuffer.HistoryIsTagged | src/cmd/log.c:254-311 | over every history of messages each line of the log starts with a tag, and the level tells whether the next character starts a line |
| LogBuffer.EmitIsLinewise | src/cmd/log.c:262-311 | at any level a message logs its lines with nothing dropped, and a tag is added only to a line that begins in the message and has none |
| LogHistory.EmitSplits | src/cmd/log.c:262-311 | the log of a joint text is that of its two parts, or exactly three characters shorter when the parts share a tag at a line start |
| LogHistory.SplitTagIsDoubled | src/cmd/log.c:146-152 | the messages "<" and "3>x" log a second tag that their joint text does not get |
| LogHistory.TagsWrittenOut | src/cmd/log.c:266-281 | the eight tags and their levels; any other line start gets level 4 |
| LogHistory.HistoryJoins | src/cmd/log.c:254-311 | for all histories the log is that of the joint text iff no message begins inside a tag that stands at a line start |
| LogHistory.HistoryIsLinewise | src/cmd/log.c:254-311 | under exactly that condition the log is the lines of the joint text, each as it is or behind one inserted tag where it had none |
| LogBuffer.Log.Reset | src/cmd/log.c:103-125 | the log is empty again in either layout |
| LogBuffer.Log.Put | src/cmd/log.c:284-300 | one character more in the ring, in either layout, with wrapping counters |
| LogBuffer.Log.TagInPlace | src/cmd/log.c:266-281 | the tag overwrites only consumed bytes and the text still to be logged is intact |
| LogBuffer.Log.PrintLine | src/cmd/log.c:263-308 | one turn of the outer loop logs one line |
| LogBuffer.Log.Printk | src/cmd/log.c:254-311 | a message logs its tagged text and carries the level on iff it has at most 1020 characters; a longer one runs past the scratch buffer |
| LogBuffer.Log.Show | src/cmd/log.c:200-214 | the last min(LOGBUFF_LEN, total) characters of the stream |
| LogBuffer.ShowHistory | src/cmd/log.c:200-311 | after any history both layouts show the same text: the kept end of the tagged stream |
| EfiMemTable.CompareIsOrder | src/cmd/efi.c:56-67 | the comparison is the order of start addresses iff their difference is at least -2^63 and below 2^63 |
| EfiMemTable.Qsort | src/lib/qsort.c:22-66 | the shell sort permutes the elements and leaves the rest of the array alone; if all pairs are comparable the result is sorted |
| EfiMemTable.SiftDown | src/lib/qsort.c:43-61 | the element sinks, elements stay a permutation, and with gap 1 and comparable addresses the sorted prefix grows |
| EfiMemTable.CompactIsFaithful | src/cmd/efi.c:84-114 | compaction keeps order and every address with its normalised type, and leaves no touching conventional neighbours |
| EfiMemTable.CompactWithoutSkipping | src/cmd/efi.c:92-111 | without skip_bs nothing is changed or merged |
| EfiMemTable.CoverageOfPermutation | src/cmd/efi.c:83-83 | sorting does not change which pages have which type |
| EfiMemTable.PlaceDesc | src/cmd/efi.c:88-113 | one descriptor is copied or merged in place and those not yet read are untouched |
| EfiMemTable.CompactInPlace | src/cmd/efi.c:84-117 | the in-place loop equals compaction of the original descriptors and ends the table |
| EfiMemTable.CompactedIsTable | src/cmd/efi.c:69-120 | the compaction of any sorted permutation of a map is a table of that map |
| EfiMemTable.CoverageIsNumber | src/cmd/efi.c:49-54 | coverage in terms of the numbers of the memory types |
| EfiMemTable.OthersPass | src/cmd/efi.c:88-114 | types other than 1 to 4 and 7 keep their pages and attributes, and types 1 to 4 do not occur in the table |
| EfiMemTable.TableSkips | src/cmd/efi.c:69-120 | with skip_bs type 7 is where the map has types 1, 2, 3, 4 or 7, and no two touching entries of type 7 are left |
| EfiMemTable.BuildMemTable | src/cmd/efi.c:69-120 | the table is the compaction of a permutation of the map with an end mark; for comparable addresses without page overflow it is sorted, without skip_bs a permutation, and with it type 7 covers exactly types 1, 2, 3, 4 and 7 of the map while every other type keeps pages and attributes |
| FdtProperty.SimpleStrtoul | src/lib/strto.c:16-46 | value modulo 2^32 and end position, with base detection |
| FdtProperty.HexReads | src/lib/strto.c:36-40 | a printed hexadecimal number is read back wherever it stands |
| FdtNumbers.CharactersAreCtype | src/lib/ctype.c:16-40 | printable, space and hexadecimal characters are those of the character table |
| FdtNumbers.DecimalIsRead | src/lib/strto.c:33-40 | decimal text without a leading zero is read as its value, whatever stands around |
| FdtNumbers.OctalIsRead | src/lib/strto.c:22-40 | text with a leading zero is read in base eight |
| FdtNumbers.HexIsRead | src/lib/strto.c:24-40 | text behind 0x is read in base sixteen in either case |
| FdtNumbers.WordsComeBack | src/cmd/fdt.c:729-761 | cells in decimal, octal or hexadecimal, cut at blanks in any way, give their bytes |
| FdtNumbers.CellsAreStored | src/cmd/fdt.c:729-761 | a bracketed list of such cells is stored big-endian |
| FdtNumbers.TenIsTen | src/cmd/fdt.c:743-744 | <10> stores 00 00 00 0A |
| FdtRefusals.CellsEndExactly | src/cmd/fdt.c:729-761 | after any cells: `>` gives their value whatever follows, no more text runs past the arguments, a 257th number is stored past the buffer, anything else that is no number is refused |
| FdtRefusals.BlankIsRefused | src/cmd/fdt.c:731-753 | a blank right behind `<` is refused |
| FdtRefusals.HexStandsForByte | src/cmd/fdt.c:773-774 | inside `[...]` a hexadecimal number of any length stands for its low byte |
| FdtRefusals.BytesEndExactly | src/cmd/fdt.c:762-782 | the same four endings for bytes, with 1024 of them in the buffer |
| FdtProperty.CellsComeBack | src/cmd/fdt.c:729-761 | `<...>` text gives its cells back however it is cut into arguments at blanks |
| FdtProperty.BytesComeBack | src/cmd/fdt.c:762-782 | the same for `[...]` text |
| FdtProperty.DumpComesBack | src/cmd/fdt.c:718-799 | both for whole command lines |
| FdtProperty.CellsAreShort | src/cmd/fdt.c:729-757 | cells without two adjacent NULs need more text than they have bytes |
| FdtProperty.DumpLikeStringsAreLost | src/cmd/fdt.c:729-782 | a string list that begins with `<` or `[` is never read back as itself |
| FdtProperty.StringsJoin | src/cmd/fdt.c:784-797 | joining the printed strings with their NULs gives the value |
| FdtProperty.PrintThenParse | src/cmd/fdt.c:718-899 | a value comes back from its printed form iff it is a NUL-terminated list of at most 1024 bytes not starting like a dump, or a dump within the limit |
| FdtProperty.LongStringOverflows | src/cmd/fdt.c:790-796 | a string of 1024 characters is printed as a string and overflows the data buffer when typed back |
| FdtProperty.IsPrintableString | src/cmd/fdt.c:807-842 | true iff non-empty, properly terminated, text or NUL throughout, no two adjacent NULs |
| FdtProperty.FdtParseProp | src/cmd/fdt.c:718-799 | the pointer-stepping parser into a 1024-byte buffer equals the recursive one, including malformed text, reading past the arguments and storing past the buffer |
| FdtProperty.PrintData | src/cmd/fdt.c:850-899 | the console text of a value in its best format |
| FdtNumbers.DumpShape | src/cmd/fdt.c:876-898 | a value that is not printable is dumped in cells iff its length is a multiple of four, in bytes otherwise, and summarised iff it has more than 64 bytes |
| FdtNumbers.PrintedExamples | src/cmd/fdt.c:861-887 | a cell and a string list as they appear on the console |
| IdeBlocks.CommandsDecode | src/cmd/ide.c:776-807 | on two-deep registers every read and write command moves one block, the addressed one, on the selected drive |
| IdeBlocks.AddressedExactly | src/cmd/ide.c:724-731 | all blocks of a request get their own address iff it stays on one side of 2^28 and below 2^48 |
| IdeBlocks.WriteIsFlat | src/cmd/ide.c:864-922 | an addressable write replaces exactly the bytes of its blocks on its drive |
| IdeBlocks.WritesHitExactly | src/cmd/ide.c:849-856 | a write is the flat one on every medium iff the request is addressable |
| IdeBlocks.ReadIsFlat | src/cmd/ide.c:768-833 | an addressable read yields the bytes of its blocks |
| IdeBlocks.ReadAfterWrite | src/cmd/ide.c:716-926 | a read after a write returns the first blocks of what was written |
| IdeBlocks.Bus.Wait | src/cmd/ide.c:967-978 | the first status that is not busy, or the last of 10 t + 1 polls |
| IdeBlocks.StatusBits | src/cmd/ide.c:820-821 | busy, error and ready are the code's masks of the status |
| IdeBlocks.Bus.ProgramBlock | src/cmd/ide.c:872-903 | the register writes for one block leave exactly the programmed task file |
| IdeBlocks.Bus.WriteOne | src/cmd/ide.c:864-922 | one turn writes the addressed block, only when the drive asks for data, or stops without writing after a bad status or a full time of busy ones |
| IdeBlocks.Bus.ReadOne | src/cmd/ide.c:768-833 | the same for one turn of the read loop, with the longer time of a drive that spins up |
| IdeBlocks.Bus.IdeWrite | src/cmd/ide.c:842-926 | returning n means exactly the first n blocks went out; fewer than asked only after an error status or 20001 busy ones; a device that never fails gets all |
| IdeBlocks.Bus.IdeRead | src/cmd/ide.c:716-837 | returning n means the first n blocks stand in the buffer and the rest of it is untouched; fewer than asked only after an error status or 20001 busy ones, 50001 for the first block of a sleeping drive |
| IdeBlocks.WriteThenRead | src/cmd/ide.c:716-926 | ide_write returning n changes exactly blocks start..start+n-1, and a following ide_read returning m yields the first m of them |
| StorageEnum.SuccessorIsHead | src/api/api.c:197-227 | one call takes the head off what is still to come |
| StorageEnum.ListingIsSound | src/api/api_storage.c:99-167 | returned devices are active, strictly increasing in (group, index), never repeated, at most the sum of max_dev plus the network device, and the network device is listed iff there is one |
| StorageEnum.CompleteExactlyForPrefixes | src/api/api_storage.c:99-167 | every active device is listed iff in each group the active ones come first |
| StorageEnum.Enumerator.DevStorType | src/api/api_storage.c:173-183 | the group of a cookie, or none |
| StorageEnum.Enumerator.GetFirst | src/api/api_storage.c:108-119 | the first device of a group, found only if active |
| StorageEnum.Enumerator.GetNext | src/api/api_storage.c:120-146 | the device behind the cookie, found only if active |
| StorageEnum.Enumerator.DevEnumStor | src/api/api_storage.c:195-286 | the cases of a group step with their flag updates, for any cookie and any flags |
| StorageEnum.Enumerator.DevEnumReset | src/api/api_storage.c:288-296 | all flags cleared |
| StorageEnum.Enumerator.DevEnumStorage | src/api/api_storage.c:298-311 | whatever the flags, what is found is an active device; with flags that fit the cookie it is the next storage device, or there is none |
| StorageEnum.Enumerator.ApiDevEnum | src/api/api.c:197-227 | whatever the cookie, the call returns an active device, described, or null; handed back the last cookie it returns the successor and keeps the flags consistent |
| StorageEnum.Enumerator.EnumerateAll | src/api/api.c:182-227 | a run from a reset returns exactly the listing in one call more than it is long |
| FloppyRead.LocateInverts | src/cmd/fdc.c:253-257 | every (track, head, sector) on the disk is the location of its block |
| FloppyRead.BlockInverts | src/cmd/fdc.c:253-257 | every block is the block at its location; with the above a bijection |
| FloppyRead.SameSide | src/cmd/fdc.c:437-441 | the blocks of a chunk lie behind each other on one track side |
| FloppyRead.SectorSizes | src/cmd/fdc.c:417-417 | the sector sizes of the size codes |
| FloppyRead.CommandedExactly | src/cmd/fdc.c:261-273 | the command bytes address the block iff it lies below track 256 |
| FloppyRead.ChunkIsImage | src/cmd/fdc.c:444-497 | one read command delivers exactly the blocks of its chunk |
| FloppyRead.ImageIsFlatExactly | src/cmd/fdc.c:253-273 | on every disk the blocks read are the right ones iff the request ends below track 256 |
| FloppyRead.SideIsUsedUp | src/cmd/fdc.c:498-508 | after a chunk that was not the last the next block starts a track side |
| FloppyRead.Floppy.ReadChunk | src/cmd/fdc.c:444-497 | one command with its data phase: the chunk in place, a fault, or a stop |
| FloppyRead.Floppy.HandleFault | src/cmd/fdc.c:468-490 | nested retry budgets count every fault once |
| FloppyRead.Floppy.FdcReadData | src/cmd/fdc.c:406-527 | each block once at its own offset; success tolerates at most 24 faults and 4 recalibrations, and without a refused command failure means exactly 25 and 4 |
| IniDocuments.PairIsRead | src/cmd/ini.c:167-196 | a pair with either separator and a comment behind it is read back iff the comment does not stand behind an empty value |
| IniDocuments.NoteIsTaken | src/cmd/ini.c:175-179 | behind an empty value a comment is taken for the value |
| IniDocuments.JunkIsRead | src/cmd/ini.c:163-196 | a heading without its bracket and a line without a separator are errors |
| IniDocuments.SpacedPairIsRead | src/cmd/ini.c:167-191 | spaces before the name, around the separator and behind the value do not count; one pair of quotes is dropped and a lone quote is empty |
| IniDocuments.HeaderIsRead | src/cmd/ini.c:156-166 | every section heading is read, whatever stands behind its bracket |
| IniDocuments.ContinuationIsRead | src/cmd/ini.c:145-154 | every rendered continuation line is read back whole, comments included |
| IniParser.LinesPartition | src/cmd/ini.c:80-103 | the lines partition the file, none is empty, and only the last may lack its newline |
| IniParser.OverrunExactly | src/cmd/ini.c:93-137 | the parser overruns iff in the file a line begins whose first 200 bytes hold no NUL and no newline before the last of them |
| IniParser.FullLineOverruns | src/cmd/ini.c:93-96 | 199 letters and a newline overrun, 198 and a newline do not |
| IniDocuments.DocumentIsRead | src/cmd/ini.c:117-201 | from any state a rendered document makes exactly the calls of its reading, in order, and reports the line of its first error |
| IniDocuments.ReadingIsMeaningExactly | src/cmd/ini.c:152-191 | the reading is the meaning iff sections with values and continued names have fewer than 50 characters |
| IniDocuments.NoErrorExactly | src/cmd/ini.c:191-196 | there is no error iff there is no junk line and the handler takes every call |
| IniParser.Rstrip | src/cmd/ini.c:40-47 | the string in the buffer loses its trailing spaces in place, nothing else changes |
| IniParser.Lskip | src/cmd/ini.c:50-55 | the position behind the leading spaces |
| IniParser.FindCharOrComment | src/cmd/ini.c:60-69 | the first stop: the character, a semicolon behind a space, or the end |
| IniParser.ParseValue | src/cmd/ini.c:175-185 | comment, spaces and one pair of quotes are cut from a value in place |
| IniParser.ParseLineInPlace | src/cmd/ini.c:137-196 | what a line means, computed by cutting it in place |
| IniParser.Memgets | src/cmd/ini.c:80-103 | the next line is copied, the cursor moves strictly forward to its end, and the buffer holds no NUL iff the line fills it without one |
| IniParser.SpaceIsCtype | src/lib/ctype.c:16-40 | spaces are those of the character table |
| IniParser.IniParse | src/cmd/ini.c:117-201 | the loop equals the reading of the lines: calls, first error line, and an overrun where the buffer holds no NUL |
| IniDocuments.RenderThenParse | src/cmd/ini.c:117-201 | a rendered document makes exactly its (section, name, value) calls iff nothing too long is used, and the result is the line of the first error, 0 iff there is none |
| EepromPages.ChunksStayInPageExactly | src/cmd/eeprom.c:106-127 | no chunk crosses a page iff pages have at most 256 bytes |
| EepromPages.ChunksPartition | src/cmd/eeprom.c:157-180 | chunks are non-empty, at most 128 bytes, back to back, make up the request and cross no page |
| EepromPages.ChunkIsMaximal | src/cmd/eeprom.c:106-127 | a chunk ends with the request, at 128 bytes or with its page |
| EepromPages.CellIsDeviceAndBlock | src/cmd/eeprom.c:84-104 | a selectable offset addresses the chip with the device address plus its block number |
| EepromPages.CellsDiffer | src/cmd/eeprom.c:84-104 | different offsets of a selectable request address different cells |
| EepromPages.ChunkWritesFlat | src/cmd/eeprom.c:129-155 | on a page-wrapping counter a chunk is a flat write |
| EepromPages.WritesAreFlat | src/cmd/eeprom.c:157-208 | without failures all chunks together are one flat write |
| EepromPages.ReadsAreFlat | src/cmd/eeprom.c:157-191 | the same for reads |
| EepromPages.ReadAfterWrite | src/cmd/eeprom.c:182-208 | a read after a write returns the buffer, and every other cell is unchanged |
| EepromPages.FaultyWrite | src/cmd/eeprom.c:165-180 | whatever transfers fail, every chunk is written whose own transfer does not, and the cells of the others are unchanged |
| EepromPages.FaultyRead | src/cmd/eeprom.c:165-180 | the same for the buffer of a read |
| EepromPages.CodeTellsExactly | src/cmd/eeprom.c:165-180 | return code 0 implies that no transfer failed iff one transfer serves the request |
| EepromPages.OverflowTransfersNothing | src/cmd/eeprom.c:160-165 | a request transfers nothing, with return code 0, iff it is empty or its end does not fit 32 bits; otherwise its chunks run from start to end |
| EepromPages.Eeprom.EepromRw | src/cmd/eeprom.c:157-180 | the chunk loop with its 32-bit end, effects of failed transfers and return code |
| EepromPages.WriteThenRead | src/cmd/eeprom.c:157-208 | writing and reading back through the code returns the buffer and leaves every other cell alone |
| FooterChecksum.AddWord | src/cmd/armflash.c:52-54 | the 32-bit step is addition with end-around carry |
| FooterChecksum.AddFolds | src/cmd/armflash.c:48-55 | the running sum is the plain total reduced to 1 .. 2^32 - 1, and 0 only for 0 |
| FooterChecksum.ComputeCrc | src/cmd/armflash.c:38-57 | the loop computes the check value of the words; an odd length gives 0 |
| FooterChecksum.ZeroExactly | src/cmd/armflash.c:137-142 | the check value is 0 iff the words add up to a multiple of 2^32 - 1 and are not all 0 |
| FooterChecksum.OrderDoesNotMatter | src/cmd/armflash.c:48-56 | permuted words have the same check value |
| FooterChecksum.StoredValueChecks | src/cmd/armflash.c:137-142 | storing the check value in a zero word makes the check value 0 |

## Left out

- Console output, echo, LEDs, delays, watchdog, cache flushes, interrupt masking, baud-rate switching and ctrl-C polling outside the protocols themselves.
- load_serial_ymodem: the protocol is in the xyzModem library.
- Kermit write addresses are unbounded integers; wrap-around of the pointer is not modelled.
- The unused os_data_state and k_state_saved variables of the Kermit receiver.
- Kermit sessions in which the length or sequence character itself is damaged, apart from the result named above.
- SerialRecords.UploadThenLoad: an empty range, a range of all 2^32 bytes, whose size the size field cannot hold, and ranges that wrap around 2^32 are excluded.
- SerialRecords.LoadSerial: records are stored in memory only, without the branch that writes to flash; a record whose bytes reach past the top of the address space is stored at addresses above it instead of wrapping.
- FlashCover.RangeIsCovered: banks that are not back to back are covered by PlanStaysInRange only.
- EfiMemTable.BuildMemTable: descriptor sizes other than the structure's own and allocation failure are not modelled; for addresses that are not comparable or page ranges that overflow 64 bits only the permutation and the merging rule are stated.
- LogBuffer.Log.Printk: what a message of more than 1020 characters does to the memory behind the scratch buffer is not modelled.
- LogBuffer.ShowHistory: histories with a message that does not fit the scratch buffer are excluded.
- EfiMemTable.Qsort: swaps whole elements instead of their bytes.
- The flash drivers behind flash_erase and the variant with flash_real_protect.
- Bank and sector forms of the flash commands, and partition names.
- FdtProperty.SimpleStrtoul: unsigned long has 32 bits.
- FdtProperty.FdtParseProp: reading past the argument array and storing past the data buffer are outcomes of their own; what they do to other memory is not modelled.
- IDE identify, reset, ATAPI and drives without LBA48; device timing is an arbitrary sequence of status values.
- IdeBlocks.Bus.IdeRead: the returned count is not cut to the width of ulong, since the buffer would have to exceed memory first.
- StorageEnum: cookies are device identities, so different devices have different cookies by construction; dev_open, dev_read and dev_write only forward.
- FloppyRead.Floppy.FdcReadData: a controller that never becomes ready keeps the code waiting and is not modelled, and neither are the result bytes copied on a fault.
- FloppyRead.Floppy.Seek: command issue, interrupt and status byte are two arbitrary answers.
- IniParser.IniParse: the section and name arrays are truncated strings instead of arrays; the setenv handler is an arbitrary function.
- EepromPages.Eeprom.EepromRw: FRAM without chunk limit, SPI and the write delay are left out; a failed transfer is assumed to change nothing.
- fdc_check_drive, afs image parsing, efi_print_mem_table, do_ini and the other command wrappers: argument handling and formatting only.

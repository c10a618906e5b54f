# Boot loader logic, modelled and proved

This project models nine pieces of U-Boot 2009.08 that keep state, parse text or do
arithmetic on addresses, and proves what they are for. Words are 32 bits wide throughout;
wrap-around is written out.

* **MTD partition tables** (`mtd_*.dfy`). The parser and the printer of `mtdparts`, the sorted
  partition lists, the cursor that names the current partition, and the commands as a class that
  updates them in place, each behind the initialisation that brings the table in step with the
  environment. A printed table is parsed exactly when every size is one the parser accepts, and
  loaded after a restart exactly when its text is also at most 1014 characters long; every run
  of commands keeps the table in order; a partition is accepted exactly when it lies in the
  device and is a union of whole erase blocks.
* **Kermit receiver** (`kermit_*.dfy`). The packet parser, checkpoint and rollback, control
  prefixing and replies of `loadb`, following section 6 of the Kermit Protocol Manual, Sixth
  Edition; the receiver as it runs, character by character; and a sender and a line that loses
  and damages packets and replies. The memory holds the file, each byte once and in order, for
  every pattern of loss and noticed damage that spares the two moments at which a damaged header
  misleads the code; for runs with one of the two kinds of damage it does so exactly then.
* **Environment** (`env_*.dfy`). The flat buffer of NUL-separated entries, searched, compacted
  and extended in place, as a map from names to values; its printer and its enumerator.
* **NOR flash ranges** (`flash_*.dfy`). The sectors that an address range selects over several
  banks: always one unbroken interval, unless addresses wrap, with the exact condition on the
  banks; exactly the requested range for banks without gaps; and the protect and erase loops.
* **OneNAND** (`onenand_*.dfy`). Writes that carry the skipped distance from call to call over
  a map of blocks that are bad or fail, and one read that returns all of it, with the exact
  condition on the blocks that writing and reading pass over and on the distance that an
  earlier session left behind.
* **Log buffer** (`log_*.dfy`, `rings.dfy`). Both ring layouts hold the last characters of the
  message stream; the stream does not depend on how text is cut into messages exactly when no
  cut falls inside a level tag.
* **Bedbug** (`bedbug_*.dfy`). Instruction fields, branch targets in the assembler, the
  disassembler and the stepper, and the next address against the branch instructions of section
  2.4.1 of the PowerPC User Instruction Set Architecture Book I, with the exact cases in which
  the stepper differs.
* **S-records** (`srec_*.dfy`). Saving a range of memory and loading it again with any offset,
  and the exact condition for the size that is reported.
* **Circular buffer** (`circbuf.dfy`).

Code that the repository writes as loops over mutable state is imperative here: classes with
the source's fields, loops with invariants, and contracts that tie the new state to functions
of the old one. The laws are lemmas about those functions.

What those functions compute is also said in numbers and in other words: in `kermit_wire.dfy` for
packets and replies, in `mtd_user.dfy` for what users write into a table, in `srec_kinds.dfy` for
the kinds of records, and in `flash_user.dfy` and `bedbug_user.dfy` for commands and branches.

Where the code and its comments disagree the model follows the code:

* The Kermit receiver rolls back to the previous packet's checkpoint when a header is damaged
  before the sequence character; the comment at `cmd_load.c:883-888` takes for granted that the
  number arrived. `KermitDamage.HeaderDamageLoses` and `KermitDamage.NumberDamageRepeats`
  are the smallest loss and the smallest repetition, `KermitProtocol.Harmless` the condition
  without them, and `KermitDamage.DeliveredIff` and `KermitDamage.OnceIff` show it exact for
  the damage that can only lose and for the damage that can only repeat.
* A sender may ask for padding that the receiver's own framing takes for the start of a packet
  or for ^C (`KermitReplies.ReplyReadsBack`).
* `generate_mtdparts` does not charge its limit for the prefix, `mtdparts_init` does. A text of
  1015 to 1023 characters is saved, past the end of `last_parts`, and refused by every later
  command (`MtdPrint.InsideIff`, `MtdLimits.SavedThenRefused`).
* `part_del` compares offsets instead of positions (`MtdLists.RemoveIdentity`,
  `MtdLists.RemoveMiscounts`), and parsing reverses partitions of one offset
  (`MtdLists.TieSwaps`, `MtdRoundTrip.TiesComeBackSwapped`).
* The chosen flash sectors are not one interval when a bank that ends at the top of the address
  space is listed before one that starts at 0 (`FlashWrap.WrapBreaks`).
* BO encodings with a z bit set are never taken by the stepper (`BedbugStep.IgnoredBitMatters`).
* A block that fails to write and reads without an error is read back with what it held before
  (`OneNandSession.FailedWriteReads`).
* Loading the records of an empty range reports a size of 2 (`SRecTransfer.SizeIffNotEmpty`), and
  with an offset that takes more than one record over the top of memory the size is wrong
  (`SRecTransfer.SizeIff`).

## Model

| member | source | states |
|---|---|---|
| MtdRoundTrip.MemsizeRoundTrip | firmware/u-boot/common/cmd_mtdparts.c:184-231 | memsize_parse undoes memsize_format for every 32-bit value, in any text in which no unit letter or digit follows |
| MtdUser.SizeWithUnit | firmware/u-boot/common/cmd_mtdparts.c:184-204 | a number with G, M or K in either case is so many bytes modulo 2^32 |
| MtdUser.HexNumber | firmware/u-boot/common/cmd_mtdparts.c:186 | and a number after 0x is what its digits say |
| MtdBlocks.AlignedIffWholeBlocks | firmware/u-boot/common/cmd_mtdparts.c:308-385 | for uniform devices and any end-to-end list of erase regions the alignment tests hold of a range exactly when every address of it lies in an erase block that is wholly inside it |
| MtdBlocks.ScanBlocks | firmware/u-boot/common/cmd_mtdparts.c:346-374 | the double loop finds the target exactly when some block of some region starts there, and otherwise stops at the end of the last region |
| MtdBlocks.ScanRegion | firmware/u-boot/common/cmd_mtdparts.c:348-354 | the inner loop finds it exactly when some block of the region starts there, and otherwise stops at the end of the region |
| MtdBlocks.ValidateEraseblock | firmware/u-boot/common/cmd_mtdparts.c:308-385 | accepts exactly the ranges whose start and end pass the alignment tests |
| MtdBlocks.PartValidate | firmware/u-boot/common/cmd_mtdparts.c:398-425 | accepts exactly the partitions that are not empty, do not wrap in 32 bits, end within the device and are aligned; a fill-up partition comes to end where the device ends, and is accepted exactly when it starts before that and the rest of the device is whole blocks |
| MtdLists.InsertKeeps | firmware/u-boot/common/cmd_mtdparts.c:499-553 | an accepted insertion keeps the list sorted by offset with one partition at 0 at most, and adds exactly the new partition |
| MtdLists.InsertAllKeeps | firmware/u-boot/common/cmd_mtdparts.c:499-553 | the same for any sequence of insertions |
| MtdLists.InsertIdentity | firmware/u-boot/common/cmd_mtdparts.c:499-553 | the current number moves up exactly when the new partition is put at or before it, equal offsets included, and then names the same partition |
| MtdLists.RemoveIdentity | firmware/u-boot/common/cmd_mtdparts.c:434-471 | the number part_del computes names the same partition as before if and only if the deleted one does not stand behind the current one at the same offset |
| MtdLists.RemoveMiscounts | firmware/u-boot/common/cmd_mtdparts.c:434-471 | two sorted lists in which it is another one, or none |
| MtdLists.SameOrderIffDistinct | firmware/u-boot/common/cmd_mtdparts.c:499-553 | inserting a sorted list of different partitions again gives the same list if and only if no two share an offset |
| MtdLists.TieSwaps | firmware/u-boot/common/cmd_mtdparts.c:533-545 | of two neighbours at one offset the second ends up in front of the first |
| MtdRoundTrip.PartRoundTrip | firmware/u-boot/common/cmd_mtdparts.c:584-692 | part_parse reads back the text of one partition: size, flag and user name, the offset as given or as not given, an automatic name from the unresolved values |
| MtdRoundTrip.TooSmallRefused | firmware/u-boot/common/cmd_mtdparts.c:584-612 | a printed partition below the minimum size is refused when it is read back |
| MtdRoundTrip.FillUpRefused | firmware/u-boot/common/cmd_mtdparts.c:584-692 | so is a size equal to the fill-up mark when another partition follows |
| MtdUser.FillUpPart | firmware/u-boot/common/cmd_mtdparts.c:600-692 | `-`, with or without offset, name and flag, is a fill-up partition, refused in front of another one |
| MtdUser.FillUpParses | firmware/u-boot/common/cmd_mtdparts.c:401-425 | as the last of a list it ends where the device ends, or the list is refused |
| MtdUser.AutoNameSays | firmware/u-boot/common/cmd_mtdparts.c:676-682 | an automatic name is the size and the offset in eight hexadecimal digits each |
| MtdUser.UserTable | firmware/u-boot/common/cmd_mtdparts.c:1364-1411 | `mtdparts=nand0:1m(u-boot),-(rootfs)` on eight megabytes is one for u-boot at 0 and seven behind it |
| MtdRoundTrip.PartsRoundTrip | firmware/u-boot/common/cmd_mtdparts.c:871-899 | the partition loop recovers elided offsets from the running offset and gives the printed list back, if and only if every size can be parsed |
| MtdRoundTrip.DeviceRoundTrip | firmware/u-boot/common/cmd_mtdparts.c:826-951 | device_parse gives a printed device back, those of its partitions that share an offset the other way round, if and only if every size can be parsed |
| MtdRoundTrip.DevicesRoundTrip | firmware/u-boot/common/cmd_mtdparts.c:1364-1411 | the device loop does so for any list of devices with distinct keys, behind those already there |
| MtdRoundTrip.TableRoundTrip | firmware/u-boot/common/cmd_mtdparts.c:1067-1411 | parsing the printed table succeeds if and only if every size can be parsed, and then gives every device and partition, equal offsets reversed |
| MtdRoundTrip.InPlaceIff | firmware/u-boot/common/cmd_mtdparts.c:1067-1411 | whatever the names, every device and partition is back in its place when every size can be parsed and no device has two partitions at one offset, and for partitions that are all different only then |
| MtdRoundTrip.DeviceInPlaceIff | firmware/u-boot/common/cmd_mtdparts.c:533-545 | the same for one device |
| MtdRoundTrip.ReparsedKeeps | firmware/u-boot/common/cmd_mtdparts.c:679 | what comes back differs from what was printed in automatic names only |
| MtdRoundTrip.NamedTableRoundTrip | firmware/u-boot/common/cmd_mtdparts.c:1067-1411 | for different partitions with user names the table itself comes back if and only if every size can be parsed and no device has two partitions at one offset |
| MtdRoundTrip.NamedDeviceBack | firmware/u-boot/common/cmd_mtdparts.c:533-545 | the same for one device |
| MtdRoundTrip.TiesComeBackSwapped | firmware/u-boot/common/cmd_mtdparts.c:1067-1411 | a table of two partitions at one offset whose text is parsed to the swapped table |
| MtdTable.ParsedDeviceOk | firmware/u-boot/common/cmd_mtdparts.c:826-951 | whatever the text and the ids, a device the parser accepts has an id that is known, the first of its name and without a colon in it, is not empty, is sorted, counts its partitions and contains only partitions that fit |
| MtdTable.ParsedTableOk | firmware/u-boot/common/cmd_mtdparts.c:1364-1411 | whatever the text, a parsed table is not empty, its devices are all in order and their keys are distinct |
| MtdTable.InsertKeepsNamed | firmware/u-boot/common/cmd_mtdparts.c:499-553 | after an insertion into any device the adjusted current number names the partition it named, ties included, as long as 8 bits suffice |
| MtdTable.RemovedOk | firmware/u-boot/common/cmd_mtdparts.c:747-769 | taking a device out keeps the list in order and finds every other device where it went |
| MtdTable.GlobalNumber | firmware/u-boot/common/cmd_mtdparts.c:238-271 | partition j of device i stands at the number of partitions before device i, plus j, in the concatenation of all lists |
| MtdTable.PartitionTextFinds | firmware/u-boot/common/cmd_mtdparts.c:276-297 | the saved text of the current partition finds that partition again, unless some partition has that text as its name |
| MtdPrint.GenerateMtdparts | firmware/u-boot/common/cmd_mtdparts.c:1067-1184 | prints the table text into the buffer, with its NUL, exactly when the text behind the prefix fits the limit, otherwise leaves an empty string; and says how far it writes |
| MtdPrint.InsideIff | firmware/u-boot/common/cmd_mtdparts.c:1067-1184 | a text within the limit stays inside a buffer of that size if and only if it fits with prefix and NUL, one beyond it if and only if the pieces that fit do; nine characters is the furthest it goes |
| MtdIO.PartsParse | firmware/u-boot/common/cmd_mtdparts.c:871-899 | the loop over partitions, with validation and running offset, computes the parse of a list |
| MtdIO.DeviceParse | firmware/u-boot/common/cmd_mtdparts.c:826-951 | the same for a device |
| MtdIO.ParseMtdparts | firmware/u-boot/common/cmd_mtdparts.c:1364-1411 | the same for a table, all or nothing |
| MtdCommands.Table.IndexPartitions | firmware/u-boot/common/cmd_mtdparts.c:238-271 | mtddevnum is the number of partitions before the current one, in 16 bits, and mtddevname its name; both unset without a current partition |
| MtdCommands.Table.PartSortAdd | firmware/u-boot/common/cmd_mtdparts.c:499-553 | the list becomes the sorted insertion, the count goes up by one and the current number moves exactly when the current partition does; a refused one changes nothing |
| MtdCommands.Table.FindSlot | firmware/u-boot/common/cmd_mtdparts.c:522-534 | its loop finds the slot of the sorted insertion, or refuses exactly when the insertion does |
| MtdCommands.Table.PartAdd | firmware/u-boot/common/cmd_mtdparts.c:562-573 | succeeds exactly when the resolved partition fits and can be inserted, and then keeps the current partition |
| MtdCommands.Table.PartDel | firmware/u-boot/common/cmd_mtdparts.c:434-471 | removes exactly that partition, or the device with its last one; the current partition keeps its identity under the stated condition and is reset to 0 only when it was deleted itself |
| MtdCommands.Table.DeviceDel | firmware/u-boot/common/cmd_mtdparts.c:747-769 | removes exactly that device; the current partition stays unless it was on it, and is then the first one left |
| MtdCommands.Table.DeviceAdd | firmware/u-boot/common/cmd_mtdparts.c:799-815 | appends; the first device ever becomes current |
| MtdCommands.Table.FindDevAndPart | firmware/u-boot/common/cmd_mtdparts.c:1271-1323 | the first partition of that name, otherwise the device and number that the text spells |
| MtdCommands.Table.GenerateSave | firmware/u-boot/common/cmd_mtdparts.c:1194-1206 | the variable and the copy in last_parts become the table text, or are dropped when the text does not fit or is empty |
| MtdCommands.Table.Init | firmware/u-boot/common/cmd_mtdparts.c:1530-1658 | refuses a text above 1023 characters, parses one it has not seen and tries a failed one again, empties the table without a text, and moves the cursor to what the variable names or else to the first partition of a new table; nothing moves while the variables are in step |
| MtdCommands.Table.CmdList | firmware/u-boot/common/cmd_mtdparts.c:1774-1781 | lists what is left when a text above 1023 characters is refused, one that was not parsed or printed last is parsed, and the table is emptied without a text; nothing moves while the variables are in step |
| MtdCommands.Table.CmdAdd | firmware/u-boot/common/cmd_mtdparts.c:1774-1838 | on the table that the variables ask for: the addition, whole or not at all, with result 0 exactly when it is possible and the text fits; the next command works on it or refuses it according to the length; the current partition stays |
| MtdUser.AddPlaces | firmware/u-boot/common/cmd_mtdparts.c:1783-1838 | the table after adding a described partition: a new device with it, or the old one with it at its place by offset, or no change when that is refused |
| MtdUser.AddBehind | firmware/u-boot/common/cmd_mtdparts.c:870-875 | without an offset the partition starts where the last one of the device ends, and becomes the last of the list |
| MtdCommands.Table.CmdDel | firmware/u-boot/common/cmd_mtdparts.c:1331-1355 | removes what the id finds in the table that the variables ask for and nothing else, saves the rest, and leaves a table for the next command exactly when the text is short enough; the current partition stays, or goes to the first when it was itself removed |
| MtdCommands.Table.CmdChPart | firmware/u-boot/common/cmd_mtdparts.c:1715-1741 | result 0 exactly when the text can be loaded and the id finds a partition, which is then current and named by the variables; no device changes |
| MtdCommands.Table.SavedRuns | firmware/u-boot/common/cmd_mtdparts.c:1588-1591 | after a save the next command works on the table if and only if its text is at most 1014 characters long, and refuses it otherwise |
| MtdLimits.SavedThenRefused | firmware/u-boot/common/cmd_mtdparts.c:1588-1591 | two commands from a table that loads to one of 1015 characters, saved with result 0 and then not even listed |
| MtdLimits.OneTooMany | firmware/u-boot/common/cmd_mtdparts.c:1067-1184 | and saving it writes one character behind last_parts |
| MtdCommands.Table.SaveAndReload | firmware/u-boot/common/cmd_mtdparts.c:1067-1658 | over a restart a saved table loads if and only if every size can be parsed and the text is at most 1014 characters long; devices and partitions are then the same, and the current partition is restored if and only if it is the first one or its text is no other partition's name |
| MtdCommands.Table.CursorBack | firmware/u-boot/common/cmd_mtdparts.c:1637-1650 | where the saved text leads after a restart, with the exact condition |
| MtdCommands.Table.NumberIsPosition | firmware/u-boot/common/cmd_mtdparts.c:238-271 | mtddevnum is the position of the current partition in the concatenation of all lists, modulo 65536, and mtddevname its name |
| MtdCommands.Table.Run | firmware/u-boot/common/cmd_mtdparts.c:1530-1849 | every run of list, add, del, delall, chpart, of variables set to anything in between, and of restarts keeps all invariants: sorted lists, counts, no empty device, distinct keys, one partition at 0, everything inside its device, saved number and name right, and the cursor null exactly without devices and otherwise in range, unless a command worked on a table with equal offsets or more than 255 partitions in a device |
| KermitCode.DecodeCut | firmware/u-boot/common/cmd_load.c:693-708 | decoding does not depend on where the text is cut into packets, behind a prefix included |
| KermitCode.EncodeBack | firmware/u-boot/common/cmd_load.c:576-584 | k_data_char with ktrans undoes control prefixing for every byte string |
| KermitCode.QuoteIff | firmware/u-boot/common/cmd_load.c:576-708 | the prefixes for which that holds of all byte strings are exactly those that ktrans leaves alone |
| KermitPacket.FrameParses | firmware/u-boot/common/cmd_load.c:803-958 | every short or long packet a sender may build is accepted with its number, type and data, wherever it stands in the input |
| KermitWire.CheckIs | firmware/u-boot/common/cmd_load.c:586-594 | the block check adds bits 6 and 7 of the sum to the six below them |
| KermitWire.ShortPacket | firmware/u-boot/common/cmd_load.c:866-958 | a short packet, written out byte by byte, is accepted exactly with that check and is an error with any other |
| KermitWire.LongPacket | firmware/u-boot/common/cmd_load.c:908-958 | so is a long one, with its length to the base 95 and the check of its header |
| KermitWire.ControlBreaksOff | firmware/u-boot/common/cmd_load.c:866-906 | a control character in the header breaks a packet off, with its number or without |
| KermitWire.ControlInData | firmware/u-boot/common/cmd_load.c:934-950 | and so does one in the data |
| KermitWire.BetweenPackets | firmware/u-boot/common/cmd_load.c:854-864 | between packets ^C ends the session, and all but a start character is passed over |
| KermitWire.KtransIs | firmware/u-boot/common/cmd_load.c:576-584 | which characters stand for which control characters |
| KermitWire.NegotiatedIs | firmware/u-boot/common/cmd_load.c:720-766 | padding, end of line and prefix of the sender, and what holds where it names none |
| KermitWire.OfferBytes | firmware/u-boot/common/cmd_load.c:735-800 | the answer to parameters, written out byte by byte |
| KermitWire.ReplyBytes | firmware/u-boot/common/cmd_load.c:605-629 | and an acknowledgement or refusal |
| KermitWire.RefusalBytes | firmware/u-boot/common/cmd_load.c:618-629 | a refusal carries the number of its packet, or of the one before when none arrived |
| KermitWire.SmallestPacket | firmware/u-boot/common/cmd_load.c:866-958 | the packet 0 that says "A" |
| KermitWire.AcknowledgeFirst | firmware/u-boot/common/cmd_load.c:605-616 | and the six bytes that acknowledge it |
| KermitWire.Transfer | firmware/u-boot/common/cmd_load.c:803-977 | k_recv on the 29 bytes of a transfer: the two bytes in memory, the size, and all 26 bytes of the answers |
| KermitState.DataCharsDecode | firmware/u-boot/common/cmd_load.c:638-708 | feeding data characters appends what they decode to and rewrites nothing below |
| KermitState.ApplyKeeps | firmware/u-boot/common/cmd_load.c:681-691 | whatever a turn ends with, no byte below the checkpoint is rewritten |
| KermitReplies.ReplyReadsBack | firmware/u-boot/common/cmd_load.c:567-616 | an acknowledgement, padding and all and for any number of parameters, passes the receiver's own framing and check with its number, type and fields, if and only if the end of line is the usual one and the padding asked for is none or neither a start character nor ^C |
| KermitReplies.NackReadsBack | firmware/u-boot/common/cmd_load.c:567-629 | the same for the refusal of a packet whose number arrived, or did not |
| KermitProtocol.IntactKeeps | firmware/u-boot/common/cmd_load.c:803-958 | an intact copy keeps the protocol invariant, whether or not its reply is heard and whether or not it is a repeat |
| KermitProtocol.DamagedKeeps | firmware/u-boot/common/cmd_load.c:866-964 | damage noticed behind the sequence character leaves the text where the packet found it |
| KermitProtocol.HeaderKeeps | firmware/u-boot/common/cmd_load.c:870-877 | so does damage before it, when the packet is already being tried or the receiver stands at its checkpoint |
| KermitProtocol.NumberKeeps | firmware/u-boot/common/cmd_load.c:882-964 | so does a wrong number in a packet that fails its check, when the receiver stands at its checkpoint or the packet is new and the number not the last one |
| KermitProtocol.RunKeeps | firmware/u-boot/common/cmd_load.c:803-977 | every run keeps the invariant as long as each damage is one of those |
| KermitProtocol.Delivered | firmware/u-boot/common/cmd_load.c:803-977 | when the break has been accepted the memory holds what the packets say, each once and in order, for every such pattern of lost and damaged packets and lost replies |
| KermitProtocol.FileDelivered | firmware/u-boot/common/cmd_load.c:803-977 | any file, prefixed and cut into packets in any way, arrives as it was |
| KermitDamage.DeliveredIff | firmware/u-boot/common/cmd_load.c:866-964 | for all runs in which numbers arrive right, not at all, or as the last packet's: what arrives is right if and only if nothing rolled the receiver back while the sender had moved on and bytes stood behind the checkpoint; otherwise it is shorter |
| KermitDamage.OnceIff | firmware/u-boot/common/cmd_load.c:882-964 | for all runs in which numbers arrive, and wrong ones are not the last packet's: what arrives is right if and only if no wrong number met a receiver that had already taken the packet and stood behind its checkpoint; otherwise it is longer |
| KermitDamage.HeaderDamageLoses | firmware/u-boot/common/cmd_load.c:870-888 | one acknowledged byte, a spoilt length character, and the byte is gone from a transfer that ends well |
| KermitDamage.NumberDamageRepeats | firmware/u-boot/common/cmd_load.c:882-898 | a lost acknowledgement, a copy whose number arrives wrong, and the byte is in memory twice after a transfer that ends well |
| KermitDamage.DamageCancels | firmware/u-boot/common/cmd_load.c:866-964 | a run with both kinds of harmful damage, in which one byte is lost, an equal one is repeated, and the text is right |
| KermitReceiver.Receiver.KDataChar | firmware/u-boot/common/cmd_load.c:693-708 | the state after a data character is the decoding step on the state before |
| KermitReceiver.Receiver.Checkpoint | firmware/u-boot/common/cmd_load.c:889-898 | a repeated number goes back to the checkpoint, a new one makes one |
| KermitReceiver.Receiver.TakeBody | firmware/u-boot/common/cmd_load.c:932-958 | data, check and end of line: outcome, position, memory and stored parameters are those of the parse |
| KermitReceiver.Receiver.TakeLong | firmware/u-boot/common/cmd_load.c:908-931 | the same for the header of a long packet |
| KermitReceiver.Receiver.TakePacket | firmware/u-boot/common/cmd_load.c:866-958 | the same for a whole packet, with its checkpoint |
| KermitReceiver.Receiver.Chk1 | firmware/u-boot/common/cmd_load.c:586-594 | the check of the buffer up to its NUL is the check of its contents |
| KermitReceiver.Receiver.SendPacket | firmware/u-boot/common/cmd_load.c:567-602 | the padding asked for, and then the buffer up to its NUL |
| KermitReceiver.Receiver.SendShort | firmware/u-boot/common/cmd_load.c:605-629 | sends the reply of that number and type, in a buffer that is never overrun |
| KermitReceiver.Receiver.HandleSendPacket | firmware/u-boot/common/cmd_load.c:716-800 | remembers what the parameters ask for and answers with one field for each, in 24 bytes |
| KermitReceiver.Receiver.KRecv | firmware/u-boot/common/cmd_load.c:803-977 | for every input: the turns taken are those of the input, the final state is their fold, what was sent is the reply to each, the size is what was received, and it ends on the first accepted break, on ^C or when the line falls silent |
| KermitReceiver.Progress | firmware/u-boot/common/cmd_load.c:854-975 | every turn that ends uses up input, so the main loop ends |
| KermitWhole.ParseIn | firmware/u-boot/common/cmd_load.c:803-977 | a turn depends only on the bytes it uses |
| KermitWhole.RunTurns | firmware/u-boot/common/cmd_load.c:803-977 | the turns on the bytes of a run are the outcomes of the run's events |
| KermitWhole.ReceiverDelivers | firmware/u-boot/common/cmd_load.c:803-977 | k_recv on the bytes of any run whose break gets through, and anything after it, ends on that break with what the packets say in memory |
| KermitWhole.ReceiverFile | firmware/u-boot/common/cmd_load.c:803-977 | and so with the file in memory |
| EnvImage.NoDoubleNul | firmware/u-boot/common/cmd_nvedit.c:301-308 | no two NULs stand side by side before the end of the entries |
| EnvImage.ImageEnd | firmware/u-boot/common/cmd_nvedit.c:322-325 | the first pair of NULs is the end of the environment |
| EnvImage.ImageInjective | firmware/u-boot/common/cmd_nvedit.c:173-350 | the bytes determine the entries |
| EnvImage.RemoveAtMap | firmware/u-boot/common/cmd_nvedit.c:292-308 | removing an entry is removing its name from the map |
| EnvImage.AppendMap | firmware/u-boot/common/cmd_nvedit.c:320-350 | a new name at the end is a map update |
| EnvStore.Environment.EnvMatch | firmware/u-boot/common/cmd_nvedit.c:590-599 | the position of the value exactly when the entry carries the name before the first '=', and -1 otherwise |
| EnvStore.Environment.Search | firmware/u-boot/common/cmd_nvedit.c:195-203 | finds the entry of the name and where it starts and ends, or that there is none |
| EnvStore.Environment.ShiftDown | firmware/u-boot/common/cmd_nvedit.c:301-308 | moves exactly the rest of the entries down over the gap |
| EnvStore.Environment.Delete | firmware/u-boot/common/cmd_nvedit.c:292-309 | the buffer stores the entries without that one, first, middle or last |
| EnvStore.Environment.Append | firmware/u-boot/common/cmd_nvedit.c:320-350 | succeeds exactly when the bytes counted fit, stores the new entry behind the others and touches exactly the bytes counted; otherwise changes nothing |
| EnvStore.Environment.Unset | firmware/u-boot/common/cmd_nvedit.c:195-309 | the map without the name |
| EnvStore.Environment.SetEnv | firmware/u-boot/common/cmd_nvedit.c:173-350 | update, or delete without a value; on overflow the map without the name; a name with '=' is refused and changes nothing; env_id counts the changes |
| EnvStore.Environment.GetEnv | firmware/u-boot/common/cmd_nvedit.c:515-535 | null exactly when the name has no value, and otherwise a pointer from which the value reads |
| EnvStore.Environment.PutEntry | firmware/u-boot/common/cmd_nvedit.c:112-131 | pieces of at most 16 characters together print the entry and a line feed, also when its NUL fills a piece |
| EnvStore.Environment.Printenv | firmware/u-boot/common/cmd_nvedit.c:102-137 | state 1 prints every entry in order; state 2 prints the entry with the name and returns 0, or nothing and the length of the environment |
| EnvStore.Environment.EnvEnum | firmware/u-boot/api/api.c:516-557 | the entry behind the one named, null behind the last, unchanged for an unknown name |
| EnvStore.Environment.EnumerateAll | firmware/u-boot/api/api.c:516-557 | starting with null and feeding each result back ends if and only if there are entries, and then visits every entry once, in order; without entries an empty string comes back for ever |
| FlashPlan.StepOk | firmware/u-boot/common/cmd_flash.c:229-283 | what one bank contributes starts at the requested address, ends on a sector end not past the last one, and reaches that or the bank's end; its sectors are never in reverse order |
| FlashPlan.PlanTiles | firmware/u-boot/common/cmd_flash.c:206-287 | without wrap-around: the chosen sectors are one unbroken interval that starts at the first address and does not pass the last, and the count is their number, for banks in any order |
| FlashWrap.WrapBreaks | firmware/u-boot/common/cmd_flash.c:271-272 | asking for the whole of a bank at the top of the address space also selects a later bank that starts at 0 |
| FlashWrap.UnbrokenIffNoWrap | firmware/u-boot/common/cmd_flash.c:206-287 | for banks that do not overlap, all plans are unbroken if and only if no such pair of banks is listed |
| FlashExact.PlanIsRange | firmware/u-boot/common/cmd_flash.c:206-287 | for banks without gaps there is a plan if and only if the range starts on a sector boundary and ends on one or past the flash, and it is exactly the flash in the range |
| FlashExact.PickedIffInside | firmware/u-boot/common/cmd_flash.c:206-287 | and a sector is chosen if and only if it lies inside the range |
| FlashCommands.Flash.ScanSectors | firmware/u-boot/common/cmd_flash.c:237-253 | the loop over sectors finds the one that starts at the first address and the one that ends at the last |
| FlashCommands.Flash.FillSectRanges | firmware/u-boot/common/cmd_flash.c:206-287 | return code, count and both arrays are those of the plan |
| FlashCommands.Flash.SectErase | firmware/u-boot/common/cmd_flash.c:422-461 | without a plan nothing is erased and the result is 1; with one the erase calls are the planned ones in order, all of them or up to the first that fails, and the result is the last answer |
| FlashCommands.Flash.SectProtect | firmware/u-boot/common/cmd_flash.c:647-698 | exactly the chosen sectors change, and nothing does without a plan |
| FlashCommands.Flash.SectRoundb | firmware/u-boot/common/cmd_flash.c:110-147 | the end of the sector that holds the address, or an error exactly when there is none |
| FlashCommands.Flash.AddrSpec | firmware/u-boot/common/cmd_flash.c:165-204 | the last address as given, or the end of the sector that holds start + length - 1, and an error exactly when no sector does |
| FlashCommands.Flash.DoProtect | firmware/u-boot/common/cmd_flash.c:632-641 | the sectors planned for the range change, or none; in banks without gaps the command succeeds exactly for the ranges it documents, and changes exactly the sectors inside the range or, with a length, those with an address from the start up to but not including start + length |
| FlashUser.ProtectFirst | firmware/u-boot/common/cmd_flash.c:632-641 | `protect on 0 +10000` on three sectors of 64 KB sets the first and no other |
| FlashUser.EraseRest | firmware/u-boot/common/cmd_flash.c:422-461 | `erase 10000 2ffff` is one call for the other two |
| FlashUser.TopAndZero | firmware/u-boot/common/cmd_flash.c:271-272 | the plan for the whole of a bank at the top, in front of one at 0 |
| OneNandBlocks.LoadStored | firmware/u-boot/common/cmd_onenand.c:72-162 | loading gives back what was stored from the same block on, whatever blocks are skipped |
| OneNandBlocks.StoreTwice | firmware/u-boot/common/cmd_onenand.c:119-162 | storing in two goes, the second where the first stopped, is storing once |
| OneNandSession.SessionWrites | firmware/u-boot/common/cmd_onenand.c:119-162 | after any number of back-to-back writes the chip is as after one write of everything, and skip_ofs leads from the logical to the physical end |
| OneNandSession.ReadsBack | firmware/u-boot/common/cmd_onenand.c:72-162 | one read of the total length from the first start returns all that was written, when it passes over the blocks that were not written and no others |
| OneNandSession.SessionLoses | firmware/u-boot/common/cmd_onenand.c:72-162 | in every other case a session whose data does not come back |
| OneNandSession.StaleLoses | firmware/u-boot/common/cmd_onenand.c:129-135 | data that does not come back when an earlier distance is carried over a usable block |
| OneNandSession.FailedWriteReads | firmware/u-boot/common/cmd_onenand.c:72-162 | data that does not come back from a block that fails to write and reads without an error |
| OneNandSession.ReadsBackIff | firmware/u-boot/common/cmd_onenand.c:72-162 | all data comes back if and only if every block from the logical start to the end of the writing is passed over on reading exactly when it was not written |
| OneNandSession.SameMapIff | firmware/u-boot/common/cmd_onenand.c:129-135 | when the same blocks are passed over on writing and reading, that is: the first write does not continue an earlier one, or no usable block lies in the distance carried over |
| OneNandDevice.OneNand.BlockWrite | firmware/u-boot/common/cmd_onenand.c:119-162 | the loop ends, and leaves next_ofs, skip_ofs and the chip as the session lemmas assume; bad blocks and blocks that fail to write keep what they hold |
| OneNandDevice.OneNand.BlockRead | firmware/u-boot/common/cmd_onenand.c:72-117 | the loop ends and returns what the blocks not skipped hold |
| OneNandDevice.OneNand.WriteAll | firmware/u-boot/common/cmd_onenand.c:119-162 | calls of the write loop one behind the other are a session of those lemmas |
| OneNandDevice.OneNand.WriteAndRead | firmware/u-boot/common/cmd_onenand.c:72-162 | and one call of the read loop then returns all the data, under the exact condition on the two maps |
| LogStream.StreamTagged | firmware/u-boot/common/cmd_log.c:262-292 | whatever the messages and however they are cut, every line of the log starts with a level tag |
| LogStream.OutCut | firmware/u-boot/common/cmd_log.c:262-319 | cutting a message in two adds nothing, or one tag when the cut falls inside a tag at the start of a line |
| LogStream.CutIndependent | firmware/u-boot/common/cmd_log.c:262-319 | the stream depends only on the text if and only if no cut falls inside such a tag |
| LogStream.PlainText | firmware/u-boot/common/cmd_log.c:262-319 | in particular for text without a line that starts with '<' |
| LogRing.LogBuffer.PutChar | firmware/u-boot/common/cmd_log.c:287-306 | in both layouts, wrapping counters included, the ring holds the last characters after one more |
| LogRing.LogBuffer.Printk | firmware/u-boot/common/cmd_log.c:262-319 | the ring is as if the message's stream had been appended, the character count goes up by its length, and the level is pending exactly when a line is |
| LogRing.LogBuffer.Append | firmware/u-boot/common/cmd_log.c:201-208 | `log append` writes its arguments with blanks between them and ends the line |
| LogRing.RunHolds | firmware/u-boot/common/cmd_log.c:262-319 | after any run of messages the ring holds the last characters of their stream |
| LogRing.LogBuffer.Reset | firmware/u-boot/common/cmd_log.c:119-141 | an empty ring |
| BedbugFields.EveryFieldKept | firmware/u-boot/common/bedbug.c:795-828 | or-ing in operands of disjoint fields leaves each readable as it was given |
| BedbugFields.OutsideKept | firmware/u-boot/common/bedbug.c:795-828 | and every other field as the opcode has it |
| BedbugFields.AssembleOperands | firmware/u-boot/common/bedbug.c:795-828 | the loop over operands does that |
| BedbugFields.SwapBack | firmware/u-boot/common/bedbug.c:490-559 | the split-field encoding of special and time base registers undoes itself on ten bits, and is 0 for register 0 only |
| BedbugTargets.TargetBack | firmware/u-boot/common/bedbug.c:854-880 | for every field width and place, the disassembler prints the target that was assembled if and only if it is a word distance within reach |
| BedbugStep.GetOperandValue | firmware/u-boot/common/bedbug.c:373-400 | found exactly when the opcode has the field, with the field's bits |
| BedbugStep.TestBranch | firmware/u-boot/common/bedbug.c:1160-1213 | both tests pass exactly when the architecture's do, for the encodings listed, and never for the others |
| BedbugUser.BranchTable | firmware/u-boot/common/bedbug.c:1160-1213 | the sixteen meanings of BO, with the count register before its decrement, and the nine that are listed |
| BedbugUser.RegisterBranches | firmware/u-boot/common/bedbug.c:1128-1152 | the words of branches to the link and the count register, with their operands |
| BedbugUser.WordTargets | firmware/u-boot/common/bedbug.c:1128-1152 | where the architecture goes from them: the register rounded down to a word |
| BedbugUser.StepReturns | firmware/u-boot/common/bedbug.c:1053-1236 | a return is stepped to the link register, and a call through it stepped over |
| BedbugStep.FindNextAddress | firmware/u-boot/common/bedbug.c:1053-1236 | fails exactly for an unknown opcode, and otherwise follows the architecture except for unlisted encodings and unaligned registers |
| BedbugStep.AgreesIff | firmware/u-boot/common/bedbug.c:1053-1236 | the next address is the architecture's if and only if the branch is not taken, or is a call stepped over, or its encoding is listed and its register aligned, or it is unlisted and goes to the following instruction |
| BedbugStep.IgnoredBitMatters | firmware/u-boot/common/bedbug.c:1160-1213 | a branch with a z bit set that the architecture takes and the stepper does not |
| BedbugStep.BcAssembled | firmware/u-boot/common/bedbug.c:795-880 | a conditional branch, relative or absolute, keeps its operands, and disassembler and architecture read one target from it, the one it was assembled for if and only if that is in reach |
| BedbugStep.BAssembled | firmware/u-boot/common/bedbug.c:795-880 | the same for an unconditional branch |
| BedbugStep.BcGoesToTarget | firmware/u-boot/common/bedbug.c:795-1236 | a conditional branch assembled for a target in reach is stepped to that target when it is taken and listed, to the following instruction when it is not taken or is a call stepped over |
| BedbugStep.BGoesToTarget | firmware/u-boot/common/bedbug.c:795-1236 | the same for an unconditional branch |
| SRecCode.FrameBack | firmware/u-boot/common/s_record.c:30-170 | srec_decode reads every record back whose check byte is right, of every kind |
| SRecKinds.ShortAddress | firmware/u-boot/common/s_record.c:64-126 | S0, S1 and S9 have two bytes of address, the more significant first, and so has the count record S5 |
| SRecKinds.MiddleAddress | firmware/u-boot/common/s_record.c:73-126 | S2 and S8 have three |
| SRecKinds.LongAddress | firmware/u-boot/common/s_record.c:77-126 | S3 and S7 have four |
| SRecKinds.AnyRecord | firmware/u-boot/common/s_record.c:155-167 | a record is decoded exactly with the check byte that makes its bytes sum to 0xFF modulo 256, and is refused with any other |
| SRecKinds.NegativeLength | firmware/u-boot/common/s_record.c:68-71 | a length below that of address and check leaves a negative number of data bytes |
| SRecKinds.OtherKinds | firmware/u-boot/common/s_record.c:98-99 | no other digit names a kind |
| SRecKinds.HexDigits | firmware/u-boot/common/s_record.c:171-186 | the digits in both cases, and nothing else |
| SRecCode.RecordBack | firmware/u-boot/common/s_record.c:30-170 | and so every data record, with its address and data |
| SRecCode.CheckedSum | firmware/u-boot/common/cmd_load.c:357-370 | count, address, data and check byte of a record sum to 0xFF modulo 256 |
| SRecTransfer.CopyIs | firmware/u-boot/common/cmd_load.c:180-183 | the bytes of a record go to its addresses, over the top of memory included, and nothing else changes |
| SRecTransfer.RecordsLoad | firmware/u-boot/common/cmd_load.c:143-216 | the records of a range, loaded with any offset, are loaded one behind the other from the shifted address on |
| SRecTransfer.LoadsCopy | firmware/u-boot/common/cmd_load.c:180-183 | and together they are one copy of the range |
| SRecTransfer.SavedLoads | firmware/u-boot/common/cmd_load.c:143-385 | loading what was saved, with any offset, puts every byte of the range where the offset says, touches nothing else and reports a size |
| SRecTransfer.SizeIs | firmware/u-boot/common/cmd_load.c:154-205 | which size that is, for ranges over the top of memory too |
| SRecTransfer.SizeIff | firmware/u-boot/common/cmd_load.c:154-205 | it is right if and only if there is something to report, less than all of memory, that stays below the top or is a single record, or is by chance all but sixteen bytes |
| SRecTransfer.SizeIffNotEmpty | firmware/u-boot/common/cmd_load.c:154-205 | without an offset, if and only if the range is not empty |
| SRecTransfer.Board.SaveSerial | firmware/u-boot/common/cmd_load.c:332-385 | writes the header, records of sixteen bytes that tile the range in order, the last one shorter, and the trailer |
| SRecTransfer.Board.BuildRecord | firmware/u-boot/common/cmd_load.c:354-374 | the checksum loops and the format give that record, in a buffer of 48 characters |
| SRecTransfer.Board.ReadRecord | firmware/u-boot/common/cmd_load.c:218-254 | a line up to its end or the limit, or an abort at NUL and ^C |
| SRecTransfer.Board.LoadSerial | firmware/u-boot/common/cmd_load.c:143-216 | result, memory, address and size are those of the records, for every input up to its first record of negative length |
| SRecKinds.ShortLoads | firmware/u-boot/common/cmd_load.c:143-216 | the data of an S1 record goes to its two-byte address plus the offset |
| SRecKinds.MiddleLoads | firmware/u-boot/common/cmd_load.c:143-216 | that of an S2 record to its three-byte address |
| SRecKinds.WrongCheckRefused | firmware/u-boot/common/cmd_load.c:163-165 | a wrong check byte ends the load with memory as it is |
| SRecKinds.LoadFile | firmware/u-boot/common/cmd_load.c:143-216 | load_serial on two lines: two bytes at 0x10, the size, and the address of the end record |
| CircBuf.Buffer.Push | firmware/u-boot/common/circbuf.c:81-110 | the last totalsize characters of what was there and what is pushed, over the wrap |
| CircBuf.Buffer.Pop | firmware/u-boot/common/circbuf.c:54-79 | removes and returns the oldest characters, as many as asked for or all |

## Left out

- Storage: malloc and free, and running out of memory.
- Pointers: the current device of the partition table is named by its type and number, which are distinct on the list, instead of by address; a null `ret` argument of the parsers.
- `simple_strtoul`: not among the files modelled; it has its usual meaning, with a 0x prefix and wrap-around in 32 bits.
- mtdids: `parse_mtdids`, the device sizes behind it and the default partition table; the ids are a parameter of the table.
- MtdCommands.Table.Run: ends when a command on a table with equal offsets or more than 255 partitions in a device has left the cursor pointing at nothing; `MtdLists.RemoveIdentity` and `MtdTable.InsertKeepsNamed` say exactly when that happens.
- MtdCommands.Table.Init: mtdids is set, valid and unchanged. `mtdparts default`, and what mtdparts prints.
- MtdCommands.Table.CmdAdd: starts from the description; putting it together from the arguments, with its limit of 63 characters, is not modelled.
- MtdCommands.Table.SetPartition: a text of 16 characters or more, of which the source compares a copy without its NUL, is compared whole.
- MtdCommands.Table.GenerateSave: what stands behind `last_parts` is spare room here, and the copy in it is whole; setenv has room for the text.
- MtdRoundTrip.NamedTableRoundTrip: asks for partitions that are all different, because two equal ones swap without a trace; so does the second half of InPlaceIff.
- KermitProtocol.Delivered: asks that damage to headers is harmless in the sense of `KermitProtocol.Harmless`, because it fails otherwise; damage is taken to be noticed; after a packet that failed, what is left of it on the line holds no start character and no ^C, and a copy is not cut short so that the receiver takes the next one for its rest; the sender never hears an acknowledgement of an older packet.
- KermitDamage.DeliveredIff: this and OnceIff are about packets that do not end on a prefix, because a rolled back prefix may by chance decode to the same text, and each about one kind of damage, because in a run of both a lost byte and a repeated one may make up for each other, as in `KermitDamage.DamageCancels`.
- KermitReceiver.Receiver.KRecv: the line is a sequence of bytes that are already there; reading behind its end means waiting forever.
- Console: prompts, echo, ^C polling, baud rates, the special names and the checksum of the environment, protected names, `getenv_r`, and the echo of log lines on the console.
- SRecTransfer.Board.LoadSerial: a data record whose length is below that of its address has a negative data length, which the source hands to memcpy; nothing is said of what happens from there on. A copy over the top of memory goes on at 0. Records that go to flash, and the flash writer.
- The record limit of S-record lines and the codes of s_record.h are not part of this model; the limit is a parameter of at least 47 characters.
- OneNandDevice.OneNand.BlockWrite: offsets are whole blocks and enough usable blocks follow, without which the source's loop does not end; a block that fails to write fails every time, and one that fails to read likewise. Spare-area reads.
- FlashCommands.Flash.DoProtect: hexadecimal arguments are numbers already; bank and sector forms of the commands; the protection of real flash chips.
- BedbugStep.FindNextAddress: the opcode table is not part of this model; the entry for an instruction is a parameter that describes it.
- BedbugStep.AgreesIff: leaves out bcctr with a decrement, whose form the architecture calls invalid.
- Bedbug text: splitting lines into words, register names, symbols and the printed form of operands.
- Register names of special registers: `spr_map` is a table that is not part of this model.
- `log show`: masks the size, and so shows nothing of a full ring.
- LogRing.LogBuffer.Printk: messages of at most 1020 characters, which is what its buffer holds.
- Devices: serial line, flash and OneNAND controllers beyond what is named above, and all other commands.

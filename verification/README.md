# Models of the `common/` part of U-Boot

Dafny models of twelve pieces of U-Boot's `common/` directory that have state or arithmetic worth
proving, with the properties their code and documentation promise. `unsigned long` has 32 bits.
Code that changes things in place is a class or a method over arrays, proved against functions on
values; the properties are proved about those functions. A loop or recursion is total throughout.

| files | what they model |
|---|---|
| `CText`, `Numerals`, `Arithmetic`, `Words` | 32-bit arithmetic, `simple_strtoul`, text; numbers as text in any base; facts about quotients; words by their bits |
| `MtdText`, `MtdIds`, `MtdState`, `MtdAdd`, `MtdTable`, `MtdLimits` | the MTD partition table: parser and printer, the mapping of chips, the commands and the cache on values, what a partition added by hand becomes, the table object with its current partition, and where round trip and cache fail |
| `EnvStore`, `EnvMap` | the environment as a byte array edited in place, and the ordered map it implements |
| `Kermit`, `KermitCheck`, `KermitRun`, `KermitTransfer`, `KermitLost`, `KermitReceiver`, `KermitLoad` | the Kermit receiver: an automaton over characters, the block check and what it detects, runs with damaged and repeated packets, what a damaged header costs, the receiver's code |
| `SRecord`, `SRecordTransfer`, `SRecordFile`, `SRecordCode` | the S-record saver and loader: records, saved ranges, files of any records, the code |
| `Floppy` | the floppy reader with its two retry counters |
| `FlashRange`, `FlashProtect` | an address range as sectors of several banks, and the protect command over it |
| `MemTest` | the alternative memory test as a decision procedure |
| `LogBuff` | the log ring with line prefixes, in both layouts |
| `Bedbug` | PowerPC operands assembled and disassembled |
| `Eeprom` | reads and writes split at page ends |
| `Bootm`, `Crc32` | multi-file images, chunked copy and checksum, gzip headers; the CRC-32 by table and bit by bit |
| `CircBuf` | the circular buffer |

Results that differ from what one would expect of the code:

- `MtdText.RoundTrip`: the text printed for a partition table does not always parse back. It does
  exactly if the mapping knows the devices, every size is at least 4096 (a "-" partition may be
  smaller), only the last partition is open-ended, at most one partition stands at offset 0, and
  partitions that share an offset read the same in either order.
- `MtdState.CacheOverRun`: the cache of `mtdparts_init` answers as a parse, exactly unless it skips
  on printed text that does not parse back in that sense. The mapping can fail to know a device
  only after a table was too long to print (`MtdState.CoveredOverRun`); `MtdLimits.StaleAnswer` is
  such a run, in which the devices outlive the mapping they came from.
- `MtdTable.Table.PartDel`: the current partition is lost exactly when the deleted one stands
  behind it at the same offset.
- `KermitLost.LostPacket`, `KermitLost.DoubledPacket`: a packet that fails through damage before the
  end of the sequence byte can spoil the file. With an unprintable byte, or the number of the last
  packet, it takes that packet back, although it was acknowledged; that is harmless when it was that
  packet sent again. With another number it makes that packet final; that is harmless when it was a
  new one, but a retransmission that follows is stored a second time.
- `SRecordTransfer.LoadUndoesSave`: an empty range reports the size 2.
- `LogBuff.LoggedIsText`: a tag that is cut by a message boundary is not recognised, so characters
  sent one by one never carry a level of their own. `LogBuff.LogBuffer.Show` shows nothing once
  the ring is full.
- `Bootm.ChunksExact`: the copy that feeds the watchdog is not a `memmove` when the target overlaps
  the source from above and the image has more than one chunk.
- `FlashRange`: the check for an end sector before the start sector cannot fire when a bank's
  sectors ascend.

What the models take from outside, as parameters: answers of the hardware (floppy controller,
I2C), whether a console or baud rate device takes a new value (`accepted` in `EnvStore`), the
characters on the serial line, and the table of chip sizes (`Board`).

## Model

| member | source | states |
|---|---|---|
| CText.StrtoulOfDecimal | src/lib_generic/vsprintf.c:24-52 | reading a printed decimal number in base 0 gives the number and stops behind it, when what follows cannot continue it |
| Numerals.StrtoulOfNumeral | src/lib_generic/vsprintf.c:24-52 | a number written in the base that is asked for, of any length, in either case and with any leading zeros, is read modulo 2^32 up to what cannot continue it |
| Numerals.StrtoulOfHex | src/lib_generic/vsprintf.c:24-52 | behind "0x" a hexadecimal number is read, whatever base is asked for |
| Numerals.StrtoulOfOctal | src/lib_generic/vsprintf.c:24-52 | where no base is asked for, a number behind "0" is octal |
| Numerals.StrtoulOfDigits | src/lib_generic/vsprintf.c:24-52 | and any other is decimal |
| Numerals.WholeArgument | src/lib_generic/vsprintf.c:24-52 | an argument is read to its end in base 16 exactly if it is a hexadecimal number with or without "0x", and as that number modulo 2^32 |
| Numerals.TextIsNumeral | src/lib_generic/vsprintf.c:24-52 | every number has such a text in every base |
| MtdText.MemsizeRoundTrip | src/common/cmd_jffs2.c:195-242 | every 32-bit size, printed with the largest unit that divides it, parses back to itself, whatever ends it |
| MtdText.MemsizeUnits | src/common/cmd_jffs2.c:195-213 | k, m and g in either case multiply by 2^10, 2^20 and 2^30, modulo 2^32 |
| MtdText.MemsizeUnit | src/common/cmd_jffs2.c:226-242 | a size is printed with g, m or k exactly if that is the largest of them that divides it |
| MtdText.PartValidateExact | src/common/cmd_jffs2.c:319-436 | a partition is accepted exactly if it is not empty, lies inside the chip, and starts and ends on erase blocks of a NAND chip, or on sector starts (or the end) of a NOR bank; 0xFFFFFFFF means all the rest of the chip |
| MtdText.PartValidateStable | src/common/cmd_jffs2.c:319-436 | a partition that part_validate accepted and resolved is accepted again and left alone, and lies inside its chip |
| MtdText.GenPartsParse | src/common/cmd_jffs2.c:599-707 | a printed partition list parses back to the same list from any starting offset, and is refused exactly when a size is under MIN_PART_SIZE or an open-ended partition is not last |
| MtdText.SortAddPosition | src/common/cmd_jffs2.c:514-568 | where part_sort_add inserts: everything before is below the new offset, what follows is not |
| MtdText.SortAllUnchanged | src/common/cmd_jffs2.c:514-568 | sorting a list already in order changes nothing exactly when at most one partition stands at offset 0 and every run of equal offsets equals its own reverse |
| MtdText.AscendingMirrored | src/common/cmd_jffs2.c:514-568 | strictly increasing offsets meet that condition |
| MtdText.GenDevParses | src/common/cmd_jffs2.c:864-989 | a printed device definition parses back to the device, or is refused, by an exact condition |
| MtdText.RoundTrip | src/common/cmd_jffs2.c:1104-1221 | parsing the text of generate_mtdparts rebuilds the same devices and partitions if and only if the mapping knows every device, and every device has sizes >= MIN_PART_SIZE, no open-ended partition but the last, at most one partition at offset 0, and runs of equal offsets that equal their own reverse |
| MtdText.ParseDevsSound | src/common/cmd_jffs2.c:1399-1446 | every table the parser builds is valid: known and distinct devices, sorted partitions that fit their chips, good names |
| MtdLimits.SmallRemainder | src/common/cmd_jffs2.c:404-436 | a text with a small "-" partition is accepted, but the text printed for it is not: the round trip fails outside its condition |
| MtdLimits.EqualOffsets | src/common/cmd_jffs2.c:514-568 | two partitions at one offset change places when their printed text is read back |
| MtdLimits.TwinsSurvive | src/common/cmd_jffs2.c:514-568 | two equal partitions at one offset do survive, so increasing offsets are not necessary |
| MtdLimits.HandWritten | src/common/cmd_jffs2.c:1399-1446 | a mtdparts text as one writes it, and the table it stands for |
| MtdLimits.StaleAnswer | src/common/cmd_jffs2.c:1614-1664 | a run of commands (a table too long to print, then another mapping while mtdparts is unset, then a deletion) after which mtdparts_init skips and succeeds where a parse of the same variables fails |
| MtdTable.AllPartsAt | src/common/cmd_jffs2.c:249-282 | the flat number of partition k of device i is k plus the number of partitions of the devices before it |
| MtdTable.InsertTracks | src/common/cmd_jffs2.c:514-568 | after an insertion the adjusted current number names the same partition, exactly unless the number leaves eight bits |
| MtdTable.RemoveTracks | src/common/cmd_jffs2.c:443-483 | after a removal the decremented number names the same partition exactly if it stood behind the removed one |
| MtdIds.IdParses | src/common/cmd_jffs2.c:1068-1092 | "nor" or "nand" and a decimal number name that device, the number modulo 256 |
| MtdIds.ParsedMapping | src/common/cmd_jffs2.c:1456-1555 | every mapping the parser builds lists different chips that exist, with the sizes of the board and names without a comma |
| MtdIds.MappingRoundTrip | src/common/cmd_jffs2.c:1456-1555 | the text of a list of chips parses to that list if and only if it is not empty and is such a mapping |
| MtdAdd.SortAddExact | src/common/cmd_jffs2.c:514-568 | adding to a sorted list is refused exactly for a second partition at offset 0, and else puts the partition behind all lower ones and before all others |
| MtdAdd.AddedExactly | src/common/cmd_jffs2.c:2042-2111 | `mtdparts add` with a size or "-", an optional offset, a name and an optional "ro" succeeds exactly if the description is short enough, the size is at least 4096, the partition fits its chip and its start is free; then its device has one partition more: of that size and name, at the given offset or behind its last partition, at its place in the order, read-only exactly with "ro" |
| MtdState.AddedSound | src/common/cmd_jffs2.c:2026-2111 | `mtdparts add` leads from a sound table to a sound one, of known devices if they were known |
| MtdState.RunConsistent | src/common/cmd_jffs2.c:1565-1693 | in every state reached by any sequence of init, add, del and delall, the mapping is that of last_ids, and last_parts parses to the devices or is the text printed for them |
| MtdState.CacheExact | src/common/cmd_jffs2.c:1643-1664 | the cached text parses to the live devices exactly if it was parsed, or was printed from known devices whose partitions reparse |
| MtdState.ChangeAnswers | src/common/cmd_jffs2.c:2100-2111 | adding and deleting succeed exactly if the new text has fewer than 512 characters; a longer one is not cached, but the table is changed |
| MtdState.OtherAnswers | src/common/cmd_jffs2.c:2086-2104 | a partition that cannot be added or does not exist fails and changes nothing; delall always succeeds |
| MtdState.LongRefused | src/common/cmd_jffs2.c:1613-1626 | mtdids of 128 characters or mtdparts of 512 are refused, and nothing changes |
| MtdState.InitUnset | src/common/cmd_jffs2.c:1628-1674 | without mtdparts only the mapping is brought up to date, and the devices are deleted if their text is cached |
| MtdState.InitFails | src/common/cmd_jffs2.c:1628-1648 | a mapping or a table that does not parse leaves no device and no cached table; a mapping that does not parse is forgotten |
| MtdState.InitExact | src/common/cmd_jffs2.c:1614-1664 | mtdparts_init answers as an uncached parse of both variables exactly unless it skips on text that is not to be trusted in that sense |
| MtdState.CacheOverRun | src/common/cmd_jffs2.c:1565-1693 | that equivalence in every state reached by any sequence of commands |
| MtdState.CoveredOverRun | src/common/cmd_jffs2.c:1565-1693 | while no table was too long to print, the mapping knows every device, and without cached text there are none |
| MtdState.CacheWhilePrinted | src/common/cmd_jffs2.c:1565-1693 | for such runs only the printed sizes and offsets decide |
| MtdState.InitRepeats | src/common/cmd_jffs2.c:1614-1664 | once mtdparts_init has succeeded, the same call succeeds again and changes nothing |
| MtdTable.Table.IndexPartitions | src/common/cmd_jffs2.c:249-282 | mtddevnum becomes the current partition's index in the concatenation of all lists |
| MtdTable.Table.PartSortAdd | src/common/cmd_jffs2.c:514-568 | the list gets the partition at its sorted place, or is refused unchanged; the current number moves with its partition and mtddevnum follows |
| MtdTable.Table.PartDel | src/common/cmd_jffs2.c:443-483 | the list loses that partition and keeps its order (or the device goes with its last one); the current partition stays current, except exactly when the deleted one stood behind it at the same offset; deleting the current one makes it 0 |
| MtdTable.Table.DeviceDel | src/common/cmd_jffs2.c:785-807 | the device leaves the list and all others stay; another current device stays current, else the first becomes current |
| MtdTable.Table.DeviceAdd | src/common/cmd_jffs2.c:837-853 | the device goes last; the first device becomes current |
| MtdTable.Table.FindDevice | src/common/cmd_jffs2.c:817-830 | the device with that type and number, null exactly if there is none |
| MtdTable.Table.ParseDevice | src/common/cmd_jffs2.c:864-989 | the in-place construction of a device list computes the parsed device, or fails with the parser |
| MtdTable.Table.ParseTable | src/common/cmd_jffs2.c:1399-1446 | the device list becomes the parsed table, or is emptied on failure |
| MtdTable.Table.GenerateMtdparts | src/common/cmd_jffs2.c:1104-1221 | the text is printed exactly if its definitions fit the length left by the caller's buffer |
| MtdTable.Table.SaveText | src/common/cmd_jffs2.c:1231-1243 | the printed text becomes last_parts and the environment's mtdparts; both are emptied if it does not fit |
| MtdTable.Table.Init | src/common/cmd_jffs2.c:1565-1693 | mtdparts_init computes the specified step and keeps the invariant; where it does not parse the partitions, devices, current partition and index stay as they are; where it does, the first partition becomes current |
| MtdTable.Table.Add | src/common/cmd_jffs2.c:2026-2111 | `mtdparts add` computes the specified step on table and cache and keeps the invariant; the current partition stays current while its number fits eight bits |
| MtdTable.Table.PartAdd | src/common/cmd_jffs2.c:577-588 | joining a partition to a device: the values it leads to, or no change; the current partition stays current while its number fits eight bits |
| MtdTable.Table.Del | src/common/cmd_jffs2.c:1366-1391 | `mtdparts del` computes the specified step on table and cache and keeps the invariant; the current partition stays current, with the one exception of part_del |
| MtdTable.Table.DelAll | src/common/cmd_jffs2.c:2034-2045 | `mtdparts delall` keeps the invariant; no device and no cached text is left, the mapping stays |
| MtdTable.Table.ChangePart | src/common/cmd_jffs2.c:1988-2014 | chpart keeps the invariant and changes nothing of table and cache |
| MtdTable.Table.Execution | src/common/cmd_jffs2.c:2026-2111 | any sequence of commands on a new table object reaches the state that the run theorems speak of |
| MtdTable.Table.constructor | src/common/cmd_jffs2.c:1573-1581 | the invariant holds at the start |
| EnvStore.DoubleNul | src/common/cmd_nvedit.c:307-310 | in an encoded list, two NULs meet first at its end |
| EnvStore.Store.EnvMatch | src/common/cmd_nvedit.c:579-589 | envmatch answers the value's index exactly if the names are equal up to "=" |
| EnvStore.Store.Search | src/common/cmd_nvedit.c:176-185 | the search finds the entry of that name and its two ends, exactly if there is one |
| EnvStore.Store.Delete | src/common/cmd_nvedit.c:269-284 | shifting the bytes in place removes exactly that entry from the encoded list |
| EnvStore.Store.AppendEntry | src/common/cmd_nvedit.c:304-335 | the bytes encode the list with the new definition last, or the list unchanged if it does not fit |
| EnvStore.Store.DoSetenv | src/common/cmd_nvedit.c:156-395 | _do_setenv on the byte array: the array again encodes a list, and result and list are those of the list-level step |
| EnvStore.Store.Getenv | src/common/cmd_nvedit.c:508-528 | getenv points at the value the list binds, exactly if there is one |
| EnvMap.LookupWithout | src/common/cmd_nvedit.c:269-284 | removing an entry unbinds its name only, and keeps names unique |
| EnvMap.LookupAppend | src/common/cmd_nvedit.c:304-335 | appending a definition binds its name to the arguments joined by blanks, and no other |
| EnvMap.FitsExactly | src/common/cmd_nvedit.c:304-324 | a definition is taken exactly if the whole text with it fits the store |
| EnvMap.SetEnvStep | src/common/cmd_nvedit.c:156-395 | one call is one step of an ordered map: refused calls change nothing; else the name is bound to the joined arguments, last, or unbound, and on overflow only that binding is lost; all others keep order and value; success exactly if the definition fits |
| EnvMap.WriteOnceForever | src/common/cmd_nvedit.c:190-211 | over any sequence of calls, serial# and ethaddr keep their first value forever |
| EnvMap.SetAll | src/common/cmd_nvedit.c:156-395 | any sequence of calls on the byte array reaches the list of the run on lists |
| EnvMap.ValueStays | src/common/cmd_nvedit.c:508-528 | after any sequence of calls on the byte array, getenv of serial# or ethaddr points at the first value |
| Kermit.QuotingUndone | src/common/cmd_load.c:676-707 | decoding the quoted form of any bytes gives them back, for a quote character that ktrans maps to itself |
| Kermit.DecodeConcat | src/common/cmd_load.c:676-707 | decoding piece by piece, wherever packets cut, is decoding the whole |
| KermitCheck.CheckInBits | src/common/cmd_load.c:581-589 | the block check in bits: bits 6 and 7 of the sum added to the lower ones, six bits kept, made printable |
| KermitCheck.PrintableInBits | src/common/cmd_load.c:869 | a character counts as printable exactly if one of its three top bits is set |
| KermitCheck.BetweenPackets | src/common/cmd_load.c:855-866 | between packets 01 begins one, 03 stops the transfer, and all else is skipped |
| KermitCheck.OneBitShows | src/common/cmd_load.c:581-589 | sums that differ by one bit of one character have different checks |
| KermitCheck.PacketAccepted | src/common/cmd_load.c:909-955 | an intact packet of any kind, with short or extended length, is read to its end without a failure |
| KermitCheck.OneBitNotTaken | src/common/cmd_load.c:909-964 | a packet in which one bit behind the sequence number is changed, in the type, the extended length, the data, a check or the end, is refused, and leaves the download at the checkpoint |
| KermitCheck.BreakBytes | src/common/cmd_load.c:866-974 | the bytes 01 23 20 42 27 0D end a transfer and are acknowledged |
| KermitCheck.DataBytes | src/common/cmd_load.c:866-974 | the bytes of a data packet, and the byte it stores |
| KermitCheck.SendBytes | src/common/cmd_load.c:715-796 | the bytes of a send-initiate packet, and the quote character it asks for |
| KermitCheck.FirstAnswer | src/common/cmd_load.c:802-964 | a packet that fails before any number was received is answered with number 0 |
| KermitTransfer.QuoteAsked | src/common/cmd_load.c:715-796 | the quote character is the sixth parameter sent, or "#" if there are fewer |
| KermitTransfer.KeepAllKeeps | src/common/cmd_load.c:941-947 | the first nineteen parameters of a send-initiate packet are kept |
| KermitRun.FoldHead | src/common/cmd_load.c:866-907 | after an intact head the receiver is in the body of that packet, at the checkpoint of a new packet or back at that of a repeated one |
| KermitRun.FoldRejected | src/common/cmd_load.c:901-964 | every packet rest that fails on the way rolls the download back to the checkpoint and is answered by one negative acknowledgement |
| KermitRun.FoldGood | src/common/cmd_load.c:866-974 | an intact packet takes effect once, whether new or repeated, and is acknowledged; a break packet ends the transfer |
| KermitRun.SinkDecodes | src/common/cmd_load.c:658-707 | a packet's data characters put the decoded bytes into memory from the mark on and leave everything below |
| KermitTransfer.Transfer | src/common/cmd_load.c:802-978 | in any stop-and-wait run, with each packet damaged behind its sequence byte or resent any number of times, memory from the start address holds each delivered packet's data once and in order |
| KermitTransfer.EndOfTransfer | src/common/cmd_load.c:802-978 | a break packet, damaged any number of times before it arrives, ends the transfer with the download unchanged |
| KermitTransfer.DeliveredAll | src/common/cmd_load.c:802-978 | when each packet's last transmission arrived, the download is the decoding of all packets' data joined |
| KermitTransfer.FileArrives | src/common/cmd_load.c:715-796 | a file split into packets anywhere arrives whole, quoted with the character the sender negotiated; every packet, the last one included, may be damaged any number of times |
| KermitLost.HeaderErrorLeaves | src/common/cmd_load.c:866-964 | damage in the length or sequence character that fails a packet behind an acknowledged one: if the damaged packet has no readable number, or that of the acknowledged packet, it takes that packet back, and the download is still right exactly if the packet had added no byte and left the pending quote; any other readable number leaves the download as it was |
| KermitLost.FailedSettles | src/common/cmd_load.c:881-896 | a transmission that failed behind its sequence number leaves the checkpoint at the end of the download |
| KermitLost.SettledError | src/common/cmd_load.c:866-964 | and there, as behind another header error, header damage changes nothing |
| KermitLost.LostPacket | src/common/cmd_load.c:866-964 | when the damaged packet was a new one, the rest of the transfer arrives as if the acknowledged packet had not been sent, or unharmed, by the same distinction, and the final download is the intended one exactly under that condition, for senders that quote only what needs it |
| KermitLost.DoubledPacket | src/common/cmd_load.c:866-964 | when the damaged packet was the acknowledged one sent again, whose acknowledgement was lost, it is the other way round: the packet, sent once more, arrives once if the damaged one counted as it, and twice if it read as another number, and the final download is the intended one exactly if it counted so or the second copy adds no byte and leaves the pending quote |
| KermitLost.QuotedIsWell | src/common/cmd_load.c:692-707 | control-quoted text is quoted in that way |
| KermitLost.RestIsWell | src/common/cmd_load.c:692-707 | and so is what follows a packet of it, from the state behind that packet on, wherever the packet was cut |
| KermitLost.UnnoticedLoss | src/common/cmd_load.c:692-707 | without that a lost packet can go unnoticed |
| KermitLost.UnnoticedDoubling | src/common/cmd_load.c:692-707 | and so can a doubled one |
| KermitReceiver.Receiver.KDataChar | src/common/cmd_load.c:692-707 | the in-place decoder is one step of the automaton's data sink |
| KermitReceiver.Receiver.ReadPacket | src/common/cmd_load.c:866-974 | the nested reads and gotos for one packet do what the automaton does on the same characters |
| KermitReceiver.Receiver.KRecv | src/common/cmd_load.c:802-978 | k_recv on a line of characters follows the automaton to its end and returns the distance from the start address, or 0 after ^C |
| KermitLoad.LoadSerialBin | src/common/cmd_load.c:533-560 | receiving a transmitted file leaves its bytes at the start address and returns its length |
| SRecord.RecordSum | src/common/cmd_load.c:332-385 | length, address, data and checksum bytes of every record, with an address of two to four bytes, sum to 0xFF modulo 256 |
| SRecord.RecordDecodes | src/common/s_record.c:29-170 | a printed data or end record decodes to its address and data |
| SRecord.LineDecodes | src/common/s_record.c:29-170 | a record of any type, in hexadecimal of either case: S1, S2 and S3 give their address of two, three and four bytes and their data, S9, S8 and S7 their entry address, S0 and S5 nothing |
| SRecord.OtherTypes | src/common/s_record.c:99-101 | any other type is an error |
| SRecordTransfer.WriteMeans | src/common/cmd_load.c:143-216 | storing a record's bytes inside the address space puts each at its address and touches no other |
| SRecordTransfer.RecordsTile | src/common/cmd_load.c:332-385 | the data records decode to stretches that cover the range from its address on without gap or overlap, sixteen bytes in each but the last |
| SRecordTransfer.LoadRecords | src/common/cmd_load.c:143-216 | the data records of a range are loaded in sequence; the reported size is the range covered |
| SRecordTransfer.LoadUndoesSave | src/common/cmd_load.c:332-385 | loading a saved range writes exactly the saved bytes, shifted by the offset, and reports their number |
| SRecordFile.LoadFile | src/common/cmd_load.c:143-216 | a file of S1, S2 and S3 records in any order, with start and count records between them, and an S7, S8 or S9 record: the bytes are written at their addresses plus the offset, the entry address is returned, and the size reported is that of the span they cover |
| SRecordFile.WrittenMeans | src/common/cmd_load.c:143-216 | each byte of memory is then that of the last record that has one for its address |
| SRecordFile.WrittenKeeps | src/common/cmd_load.c:143-216 | and as it was where none has |
| SRecordFile.LoadNoData | src/common/cmd_load.c:143-216 | a file without data leaves memory as it is, but is reported as two bytes |
| SRecordCode.SaveSerial | src/common/cmd_load.c:332-385 | the record loop with its buffer and running checksum prints the specified text |
| SRecordCode.ReadRecordLine | src/common/cmd_load.c:218-254 | read_record takes one line, cut at the buffer's length, and fails at a NUL or ^C |
| SRecordTransfer.LineCut | src/common/cmd_load.c:218-254 | a line longer than 516 characters is cut there, and its rest is the next line |
| SRecordCode.LoadSerial | src/common/cmd_load.c:143-216 | the loading loop computes the specified result, errors included |
| SRecordCode.SaveAndLoad | src/common/cmd_load.c:332-385 | saving and loading copies the range byte for byte and changes no other address; entry point 0, size the count |
| Floppy.SplitIsBlock | src/common/cmd_fdc.c:305-325 | the track, head and sector of a block address that block, for every block of the disk |
| Floppy.Drive.IssueRead | src/common/cmd_fdc.c:305-325 | the command addresses the current block; it may only be issued for blocks on one track side |
| Floppy.Drive.Attempt | src/common/cmd_fdc.c:519-575 | a finished transfer extends the copied blocks; one with an error leaves the blocks before it |
| Floppy.Drive.AfterError | src/common/cmd_fdc.c:542-562 | the two retry counters count as one number with base 5, and give up at 24 |
| Floppy.Drive.ReadData | src/common/cmd_fdc.c:482-598 | TRUE means the buffer holds exactly the requested blocks, after at most 24 errors; FALSE means a timeout, a failed seek or the 25th error; no read crosses a track side; it terminates |
| FlashRange.ScanBank | src/common/cmd_flash.c:227-243 | the sector loop finds the sector that starts at the first address and the one that ends at the last, exactly if they exist |
| FlashRange.BankExact | src/common/cmd_flash.c:227-262 | in a bank with a start sector, what lies between first and last is what meets the range |
| FlashRange.FillSectRanges | src/common/cmd_flash.c:196-277 | on return 0 every selected sector lies inside the range and s_count is their number; on ascending adjacent banks something is selected exactly if the range starts with a sector and ends with one or beyond the last bank, and then it is all sectors that meet the range |
| FlashProtect.EndOfSectorAt | src/common/cmd_flash.c:159-184 | the nested search finds a sector that holds the address, exactly if one exists, and rounds up to its end |
| FlashProtect.AddrSpec | src/common/cmd_flash.c:123-194 | both argument forms: success exactly on hexadecimal numbers in either case, with or without "0x", with the range they mean |
| FlashProtect.PrintedMeans | src/common/cmd_flash.c:123-194 | two addresses printed in hexadecimal mean the range between them, and an address and a printed length behind "+" the range up to the end of the sector that holds its end |
| FlashProtect.LengthFormAccepted | src/common/cmd_flash.c:107-121 | a range given by start sector and length, rounded up, is always an acceptable range: the promise of the "+length" form |
| FlashProtect.SpecUnique | src/common/cmd_flash.c:123-194 | on adjacent banks the arguments mean one range |
| FlashProtect.Flash.SectProtect | src/common/cmd_flash.c:618-672 | only sectors inside the range change; on adjacent banks it succeeds exactly on acceptable ranges, and exactly the sectors meeting the range get the state |
| FlashProtect.Flash.DoProtect | src/common/cmd_flash.c:604-615 | the command with its arguments: only sectors inside the range they mean change; on adjacent banks, what changes exactly, and exactly when it fails |
| MemTest.WalkStep | src/common/cmd_mem.c:821-835 | the walk visits 1, 2, 4, ... up to the lowest clear bit of the mask, and stops also when the offset leaves 32 bits |
| MemTest.PatternsAre | src/common/cmd_mem.c:811-812 | the two patterns are 0xaaaaaaaa and 0x55555555 |
| MemTest.Memory.LinesGoodIsDistinct | src/common/cmd_mem.c:774-808 | without stuck bits, the memories that pass are those whose mapping of offset 0 and all tested powers is injective |
| MemTest.Memory.Probe | src/common/cmd_mem.c:825-857 | one probe passes exactly if no other tested offset is disturbed |
| MemTest.Memory.AddressLineTest | src/common/cmd_mem.c:810-858 | the address line test passes exactly if every tested cell holds the pattern and no two tested offsets share a cell (unless that cell is stuck at the pattern), for any aliasing and any mask |
| MemTest.Memory.CheckAndInvert | src/common/cmd_mem.c:881-895 | if the second loop passes, offsets that share a cell have its top bit stuck |
| MemTest.Memory.CheckAndClear | src/common/cmd_mem.c:897-910 | if the third loop passes, no top bit is stuck at 0 |
| MemTest.Memory.IncrementTest | src/common/cmd_mem.c:860-911 | the increment test passes exactly if the words are in different cells without a stuck bit, and then all read zero |
| LogBuff.TextConcat | src/common/cmd_log.c:230-287 | two messages log what one would, unless their boundary cuts a tag at a line start; then strictly more is logged |
| LogBuff.LineLogged | src/common/cmd_log.c:230-287 | a line is logged as it is if it begins with a level from <0> to <7>, and behind <4> if not; the rest of a begun line is logged as it is, and a line feed begins a new line |
| LogBuff.LoggedIsText | src/common/cmd_log.c:230-287 | any run of messages logs the text of the joined message exactly if no boundary cuts a tag: a line continued over messages gets one prefix |
| LogBuff.CountersNext | src/common/cmd_log.c:256-274 | the start, size and end counters stay right modulo 2^32 |
| LogBuff.WindowNext | src/common/cmd_log.c:256-274 | overwriting one slot keeps the last LOGBUFF_LEN characters of the stream in place |
| LogBuff.LogBuffer.PutChar | src/common/cmd_log.c:259-274 | both layouts: the stream grows by the character and the ring keeps its end |
| LogBuff.LogBuffer.StartLine | src/common/cmd_log.c:241-256 | the prefix written over the characters before a line makes the rest of the buffer the line's text |
| LogBuff.LogBuffer.Printk | src/common/cmd_log.c:230-287 | the stream grows by the message with its prefixes, and the level state says whether a line is open |
| LogBuff.LogBuffer.PrintAll | src/common/cmd_log.c:169-176 | for any sequence of messages and both layouts, the stream grows by what the messages log |
| LogBuff.LogBuffer.ContentsAreLast | src/common/cmd_log.c:256-274 | what stands from the start counter on is the end of the stream |
| LogBuff.LogBuffer.Reset | src/common/cmd_log.c:102-109 | the ring is empty; an open line stays open |
| LogBuff.LogBuffer.Show | src/common/cmd_log.c:181-194 | `log show` gives the whole stream while the ring is not full, and nothing when it is |
| Bedbug.SplitAndExtend | src/common/bedbug.c:856-881 | a branch distance survives the sign split and the sign extension exactly if it is a multiple of 4 in range |
| Bedbug.OperandSurvives | src/common/bedbug.c:856-920 | an accepted operand reads back as its value exactly if the value fits, for every kind of operand and both branch forms |
| Bedbug.AssemblingKeeps | src/common/bedbug.c:755-843 | operands leave the bits outside their fields alone |
| Bedbug.RoundTrip | src/common/bedbug.c:755-843 | disassembling what was assembled lists the same values exactly if all fit, for every table entry with disjoint fields |
| Bedbug.Asmppc | src/common/bedbug.c:755-843 | the operand loop computes that word or error, so the round trip holds of it |
| Bedbug.PrintOperands | src/common/bedbug.c:233-348 | the walk over the operands lists all but the silent ones |
| Bedbug.GetOperandValue | src/common/bedbug.c:375-402 | the field of the first operand with that identifier, or none exactly if there is none |
| Eeprom.PageOffset | src/common/cmd_eeprom.c:262-272 | the page offset computed from the block offset is the page offset |
| Eeprom.WrappedIsPatched | src/common/cmd_eeprom.c:206-380 | within one page, a write to a device whose counter wraps is a flat update |
| Eeprom.Device.Chunk | src/common/cmd_eeprom.c:255-279 | each chunk is not empty, stays in its page and its 256-byte block and in the controller's limit |
| Eeprom.Device.EepromWrite | src/common/cmd_eeprom.c:206-380 | 0 exactly if every transfer is acknowledged, and then one flat update; otherwise each byte is old or new, and none outside changes; it terminates |
| Eeprom.Device.EepromRead | src/common/cmd_eeprom.c:132-195 | 0 exactly if every transfer is acknowledged, and then the flat slice; it terminates |
| Eeprom.Device.WriteThenRead | src/common/cmd_eeprom.c:132-380 | what was written is what is read back |
| Bootm.KernelAt | src/common/cmd_bootm.c:291-298 | the kernel's address is the end of the table |
| Bootm.RamdiskAt | src/common/cmd_bootm.c:773-790 | the ramdisk's address, computed elsewhere, is the documented start of the second image |
| Bootm.DeviceTreeAt | src/common/cmd_bootm.c:877-897 | the device tree's address, computed a third way, is the documented start of the third image |
| Bootm.ImagesApart | src/common/cmd_bootm.c:773-897 | images never overlap each other or the table, and start on word boundaries |
| Bootm.MultiFileRead | src/README:3236-3241 | a file laid out as documented has the table that is read and holds each image where the addresses point |
| Bootm.MoveInChunks | src/common/cmd_bootm.c:329-343 | the copy loop computes the move in chunks |
| Bootm.ChunksExact | src/common/cmd_bootm.c:329-346 | moving in chunks equals one memmove whatever memory holds, exactly if the areas do not overlap upwards or one chunk is enough |
| Bootm.ChunkedCrc | src/common/cmd_bootm.c:736-750 | the checksum in chunks is the checksum of the whole |
| Crc32.PatternIs | src/lib_generic/crc32.c:58-63 | the terms of the polynomial make the pattern 0xEDB88320 |
| Crc32.MakePattern | src/lib_generic/crc32.c:60-63 | the loop that puts it together |
| Crc32.MakeTable | src/lib_generic/crc32.c:51-73 | the table holds each byte shifted through the register by eight steps |
| Crc32.TableStep | src/lib_generic/crc32.c:146 | eight steps of the register are one table lookup and a shift by eight, for every register |
| Crc32.Checksum | src/lib_generic/crc32.c:153-172 | the loops by eight and by one compute the bit-serial checksum |
| Crc32.CrcConcat | src/lib_generic/crc32.c:153-172 | checksums chain, because the complements on the way out and in cancel |
| Crc32.BurstShows | src/lib_generic/crc32.c:153-172 | texts of one length that differ only within four bytes in a row have different checksums |
| Crc32.CheckValue | src/lib_generic/crc32.c:153-172 | the checksum of "123456789" is 0xCBF43926 |
| Bootm.SkipHeader | src/common/cmd_bootm.c:1594-1614 | the header check and skip compute the specified index, or refuse |
| Bootm.HeaderSkipped | src/common/cmd_bootm.c:1594-1614 | every gzip member header (section 2.3 of RFC 1952), with any optional parts, is skipped exactly, and refused when nothing follows |
| Bootm.HeaderRefused | src/common/cmd_bootm.c:1594-1614 | another method than deflate, or a reserved flag, is refused |
| CircBuf.CircularBuffer.Push | src/common/circbuf.c:81-110 | the unread bytes become the last totalsize of old ones and new ones |
| CircBuf.CircularBuffer.Pop | src/common/circbuf.c:54-79 | the oldest bytes are delivered, the rest stays |
| CircBuf.CircularBuffer.TailFollows | src/common/circbuf.c:81-110 | tail is top plus size modulo totalsize |
| CircBuf.RunIsQueue | src/common/circbuf.c:54-110 | after any run the held bytes are the last pushed; popped and held bytes are all pushed ones exactly if every push found room |
| CircBuf.Run | src/common/circbuf.c:27-110 | the buffer does over any run what the queue does |

## Left out

- MtdTable.Table.SaveText: the printed text is a sequence of any length; that it fits the 512-byte buffer is not modelled, because `maxlen` ignores the nine characters of the prefix.
- MtdText.RoundTrip: names that the parser makes up for unnamed partitions are not modelled; an unnamed partition has no name, and is printed without one.
- MtdTable.Table.Init: the `partition` and `mtddevname` variables and their saving are left out; a list of mtdids after a failed parse is taken as empty, since nothing reads it before the next parse.
- MtdTable.Table.Add: setting the environment's `mtdparts` is taken to succeed, and the store through the null result pointer of device_parse is not modelled.
- MtdTable.Table.Del: the partition is given directly; find_dev_and_part, which looks it up from text, is not modelled.
- EnvStore.Store.DoSetenv: the environment CRC, the network, baud rate and console effects and the variables copied into globals are left out; a baud rate without an argument is treated as refused or accepted by the parameter; only the default configuration (no CONFIG_ENV_OVERWRITE, CONFIG_HAS_UID, CONFIG_OVERWRITE_ETHADDR_ONCE).
- EnvStore.Store.Getenv: the check against the environment's size, which cannot fire on an encoded list, is left out.
- KermitTransfer.Transfer: length and sequence bytes arrive intact, as a comment in the code assumes; `KermitLost` says what happens when one is damaged and the packet fails. Damage that the block check does not detect is left out; it detects every change of one bit (`KermitCheck`).
- KermitReceiver.Receiver.KRecv: characters are unsigned; the bytes of acknowledgements are values, not text, so the padding and parameter bytes sent are not modelled; os_data_count is left out.
- SRecord.SrecDecode: a record whose count is smaller than its address field needs is taken to carry no data; the code then computes a negative length.
- SRecordCode.LoadSerial: polling the console for ^C, writing to flash and dataflash, and the echo are left out.
- Floppy.Drive.ReadData: the request lies on the disk; the controller's answers are arbitrary, its result bytes and the other commands are left out.
- FlashRange.FillSectRanges: no bank ends at the top address, and a bank's sectors ascend.
- FlashProtect.AddrSpec: a missing second argument, which the code would read through, is not modelled; unrecognised banks have no sectors.
- FlashProtect.Flash.SectProtect: protection is the array of flags; the hardware variant, flash_sect_erase (which walks the same selection) and the bank:sector form of the arguments are left out.
- MemTest.Memory.AddressLineTest: the walking-ones data line test before it only prints, and the endless repetition ends by the operator; both are left out, as is the simple test.
- LogBuff.LogBuffer.Printk: what is echoed to the console is left out; a message has at most 1020 characters, as the code's buffer demands.
- Bedbug.Asmppc: finding the opcode, splitting the line into words and reading numbers and register names are left out; the values stand for the texts. The operand "cr2", which has no bits, is left out.
- Eeprom.Device.EepromWrite: the device address in the upper address bits, FRAM and SPI devices and the X40430 unlocking are left out; a transfer that is not acknowledged changes nothing.
- Crc32.MakeTable: the table is made at run time; the one written out in the source, which is used by default, is taken to be the same.
- MtdAdd.AddedExactly: a chip whose name contains a colon, which no partition text can name, is left out.
- SRecordFile.LoadFile: bytes do not wrap at 2^32, and a record without bytes does not stand at address 0.
- Bootm.KernelAt: addresses do not wrap at 2^32.
- Bootm.SkipHeader: memory behind the data reads as zero, so that the scans for a terminator end.
- Placement of the ramdisk, the command line and the board data below the stack in do_bootm_linux, because it depends on the stack pointer and on headers of the target.
- Inflate and bzip2, libfdt, file systems and network loops, because their code is elsewhere.
- find_opcode and the special register tables of bedbug.c, because they depend on the opcode tables only.
- Registers, delays, watchdog, printing and command dispatch; the other `cmd_*` files are register dumps and thin wrappers.

# libpisock, verified

libpisock is the C library by which a desktop talks to a Palm handheld: it carries packets over serial, USB and network
links, reads and writes the handheld's databases, and packs and unpacks the records in them. This project models the part
of it that is about exact bytes, and proves what that part is for.

The C code works by changing things in place, and so does the model: connections, buffers, files being written and
digest contexts are classes, and the loops are loops over arrays and moving pointers. Each method is proved against
a function on values, and the theorems are about those functions: over every run of a protocol, every history of calls,
every byte sequence, every way of cutting a message into pieces. The layer below each piece (a serial line, a socket,
a file, a handheld) appears as a script of the results its calls will have, over which the theorems quantify.

## Parts

- **PADP**, the stop-and-wait protocol of `libpisock/padp.c` (`PadpSpec`, `Padp`, `PadpSender`, `PadpReceiver`,
  `PadpExchange`, `PadpHasty`, `PadpMistake`, `PadpIds`). `padp_tx` and `padp_rx`, method by method, refine two step
  functions; two parties over lines that lose frames and carry tickles are a transition system whose invariant gives the
  exactness theorem.
- **Databases**, the PDB/PRC files of `libpisock/pi-file.c` (`PdbFormat`, `PdbRoundTrip`, `PdbHistory`, `PiFile`), and
  copying a database from one handheld to another by way of such a file (`Backup`).
- **A handheld's database** as `libpisock/dlp.c` sees it, with the loops that stand in for calls PalmOS 1.0 lacks
  (`DlpDevice`).
- **MD5** of `libpisock/md5.c` against RFC 1321 (`Md5Spec`, `Md5Transform`, `Md5`), on machines of either byte order.
- **NET framing** of `libpisock/net.c` (`NetSpec`, `Net`), the **argument lists** of DLP requests and responses (`DlpArgs`)
  and the **peek buffer** of `libpisock/linuxusb.c` (`LinuxUsb`).
- **Contacts** and **calendar events**, records whose layout a bit mask decides (`Bits`, `Fields`, `ContactFormat`,
  `ContactRoundTrip`, `ContactCut`, `ContactCodec`, `CalendarFormat`, `CalendarRoundTrip`, `CalendarCut`, `CalendarCodec`).
- `Common`, `Bytes` and `PiBuffer` are what all of them use: the macros of `include/pi-macros.h` and the buffer of
  `libpisock/pi-buffer.c`.

`dafny verify dfyconfig.toml` checks everything.

## What the proofs found

The model does what the code does. Where that is not what one would expect, a lemma says exactly when:

- `padp_tx` does not clear its packet buffer when a tickle tells it to keep waiting, so every later packet is appended
  behind the tickle and taken for another one, until a read fails (`PadpSender.TickleMasksPackets`).
- `padp_tx` does not compare the offset in an acknowledgement with what it sent. When it repeats only what was really lost,
  every run is exact (`PadpExchange.Exactness`). When it may repeat a fragment that was not lost, every run is exact if and
  only if the message has at most two fragments (`PadpHasty.HastyRunsAreExact`): with three it can report a message as
  sent whose end never arrives, and with more the peer can take the first two for the whole.
- A peer that answers takes the repeat of the packet it acknowledged last for the answer to its own last fragment when
  both have one transaction id (`PadpExchange.RepeatIsAcknowledgedOrMistaken`). Over runs with ordinary losses only, it can
  so report success while the other end has read nothing of its answer if and only if it opened the connection, the id is
  not 0, and the answer is sent in one fragment (`PadpMistake.AnsweringEndIsMistaken`); the accepting end is never mistaken.
- `padp_rx` ends with the fragment flagged LAST even when it is not the next one due, and reports the prefix it has as
  the message (`PadpReceiver.OvertakenFragmentIsLost`). When fragments may overtake each other, what it reports is always
  the whole message if and only if that has at most two fragments (`PadpReceiver.ReorderedReceptionsAreWhole`).
- Thawing the transaction id counts up a number that the next call computes anew, unless it sends and the current id is 0
  (`PadpIds.ThawIsForgotten`).
- `pi_file_open` accepts offsets with the top bit set, so that an entry can start before the file does
  (`PdbRoundTrip.NegativeOffsetIsAccepted`); the tiling is exact if and only if there are none
  (`PdbRoundTrip.AcceptedFilesAreTiled`).
- A record's uid is checked for uniqueness in full but stored with 24 bits, so lookup by uid finds a record exactly if no
  earlier one has the same 24 bits (`PdbHistory.HistoryReadsBack`).
- `pi_file_install` checks sizes before it sends anything, yet below DLP 1.4 it lets records of exactly 65528 to 65536 bytes
  through that `dlp_WriteRecord` then refuses (`Backup.SizeCheckGap`). A failing call, also one that refuses the sizes,
  takes the database of that name that was there with it unless the handheld refuses to delete it (`Backup.Install`).
- With a maximum record size above 65635 bytes, `dlp_ReadRecordById` asks for what 16 bits hold of its request and returns
  less of a long record than there is (`DlpDevice.Device.ReadRecordById`).
- The emulated `dlp_DeleteCategory` deletes what it should and still always returns a negative number
  (`DlpDevice.Device.DeleteCategory`).
- `net_tx` returns the packet's size for a frame that was cut short, on some device, if and only if its first write asks for
  more than that size (`Net.CutShortLooksComplete`).
- `net_rx` returns 0 for an empty packet and for a read that timed out (`Net.Link.Rx`). It leaves a type other than that of
  data in the field that the next `net_tx` puts into its header if and only if no message follows and it read a tickle, also
  one refused for having a length, or a packet of a type it does not know (`NetSpec.TypeStaysData`, `NetSpec.TypeLeft`, with
  examples in `NetSpec.BadHeadersLeaveTheirTypes`, and `Net.Link.Rx` for the field).
- A peek of more than 256 bytes while something is kept from an earlier one can overrun the peek buffer
  (`LinuxUsb.SafeIsExact`). A plain read that times out has already moved the kept bytes (`LinuxUsb.OneStream`).
- An empty blob at the end of a calendar event cannot be read back (`CalendarRoundTrip.EventReadsBack`), and a contact with
  a picture of fewer than two bytes is packed into a record that unpacking reads past (`ContactRoundTrip.ContactReadsBack`).
- The decoders read past the end of input that is cut off without noticing, where the model ends the run with an outcome of
  its own. That of DLP arguments does if and only if a byte is missing that it needs, which is any byte unless it stops at an
  argument it refuses (`DlpArgs.CutIsOverrun`); that of events if and only if the record has its fixed part and ends inside
  its sections or more than six bytes into a blob (`CalendarCut.CutIsOverrun`); that of contacts if and only if the record
  ends inside a string, inside the birthday, or six bytes or more into a blob, or has a picture that is too short
  (`ContactCut.CutIsOverrun`).

## Model

| member | source | states |
|---|---|---|
| `PadpExchange.Exactness` | libpisock/padp.c:180-668 | for every message of at most 65536 bytes and every run over two lines that may lose any frame, with silence only after a real loss: the receiver's offset is the sender's count or one fragment ahead, what is delivered is a prefix, reception ends only with exactly the message, and a transmission that returns a length returns the message's and the receiver has all of it |
| `PadpExchange.RunsKeep` | libpisock/padp.c:228-381 | every run of the two parties keeps the invariant: at most one fragment or acknowledgement is on its way, it is of the current fragment, and an acknowledgement is on its way only when the receiver is one fragment ahead |
| `PadpExchange.AnswerEndsTransmission` | libpisock/padp.c:296-308 | first recovery from a lost last acknowledgement: a data packet of the same transaction ends the transmission with the message's length, for every answer |
| `PadpExchange.RepeatIsAcknowledgedOrMistaken` | libpisock/padp.c:296-348 | second recovery: inside its own transmission a party renews the acknowledgement of a repeated packet and repeats its own fragment, unless it sends the last fragment of the very same transaction; then it reports success |
| `PadpMistake.AnsweringEndIsMistaken` | libpisock/padp.c:206-348 | over all runs with silence only after a real loss, for every message and answer of at most 65536 bytes: the answering end can report success while the other still waits if and only if it opened the connection, the id is not 0 and the answer is sent in one fragment; the other end is taken not to remember, from an earlier packet of that id, the header the answer starts with |
| `PadpMistake.MistakeCondition` | libpisock/padp.c:296-348 | the same for ids in any state, frozen ones included: if and only if the answer has the id of the message and is sent in one fragment |
| `PadpMistake.RunStaysApart` | libpisock/padp.c:296-348 | the invariant behind the one half: while the first party waits, the lines carry only its last fragment, acknowledgements of it and the first fragment of the answer, of which nothing is ever acknowledged |
| `PadpMistake.MarchMistakes` | libpisock/padp.c:296-308 | the other half: for every message, of any number of fragments, losses lead to the mistake |
| `PadpHasty.HastyRunsAreExact` | libpisock/padp.c:312-337 | when the sender may time out at any moment: every run, over lines that lose any frame, ends with an exact reception and an exact result if and only if the message has at most two fragments |
| `PadpHasty.TameRun` | libpisock/padp.c:649-657 | the invariant behind the one half: while the receiver lacks a part of a message of at most two fragments, only the first has been acknowledged, and only once |
| `PadpHasty.RepeatLosesData` | libpisock/padp.c:312-337 | the other half: one repeat that was not needed and one lost frame lead, for every message of three fragments, to an end where the sender reports success, nothing is on its way and the receiver waits for the third; for every longer one, to a reception that ends with the first two |
| `PadpSender.TransmissionIsSound` | libpisock/padp.c:228-375 | for every script of reads and writes: each frame sent is a slice of the message at its cut, FIRST on the first only and LAST on the last only, or a renewed acknowledgement; each fragment is sent at most ten times and none behind an unacknowledged one; the run ends, and a non-negative result is the message's length |
| `PadpSender.RunKeeps` | libpisock/padp.c:238-367 | the invariant behind it, from any state to the end of the run: the retry counter accounts for the copies sent |
| `PadpSender.TickleMasksPackets` | libpisock/padp.c:274-311 | after a tickle, no packet of any kind moves the transmitter until a read fails |
| `PadpReceiver.DeliversPrefix` | libpisock/padp.c:491-656 | under loss, duplication, reordering and foreign packets, the bytes delivered are a prefix of the message at every step of every run |
| `PadpReceiver.ReceptionIsSound` | libpisock/padp.c:403-668 | the whole of a reception, as the loops run it: whatever is read while the message is sent, what is delivered is a prefix of it and a length returned is that of the prefix |
| `PadpReceiver.StepOnFragment` | libpisock/padp.c:544-583 | what one fragment of the message does to a receiver: appended exactly if it is the next one due, acknowledged under its own id |
| `PadpReceiver.WholeIfLastInOrder` | libpisock/padp.c:556-565 | a reception that ends with a LAST fragment has the whole message exactly if that fragment was the next one due |
| `PadpReceiver.OvertakenFragmentIsLost` | libpisock/padp.c:556-565 | every message of more than two fragments whose last one overtakes all but the first is reported complete with its first 1024 bytes |
| `PadpReceiver.ReorderedReceptionsAreWhole` | libpisock/padp.c:491-656 | under any loss, repetition and order of the fragments, every reception that returns a length returns with the whole message if and only if the message has at most two fragments |
| `PadpIds.FrozenIds` | libpisock/padp.c:443-454 | while the id is frozen, every series of transmissions and receptions uses one id, at either end, the opening end from its second call on |
| `PadpIds.ThawIsForgotten` | libpisock/padp.c:206-215 | the next call after thawing is the same as if the id had not been counted up, if and only if it receives, or the current id is not 0, or the packet is to wake the peer |
| `PadpIds.ThawOnTheWire` | libpisock/padp.c:206-218 | exactly when the counting shows in the id sent: at the accepting end, in those calls |
| `PadpIds.AnswerId` | libpisock/padp.c:206-218 | an answer has the id of the message received if and only if the answering end opened the connection and the id is not 0 |
| `Padp.Protocol.Tx` | libpisock/padp.c:180-388 | the nested loops over a real packet buffer compute what the step function's run from the same state does: same frames, same readings used up, same result, same ids |
| `Padp.Protocol.SendFragment` | libpisock/padp.c:256-372 | the retry loop of one fragment |
| `Padp.Protocol.Await` | libpisock/padp.c:271-360 | the reading of packets that answer one fragment, renewed acknowledgements included |
| `Padp.Protocol.BuildPacket` | libpisock/padp.c:240-255 | header bytes, size and slice, stored one after the other in the packet buffer, are the packet of the step function |
| `Padp.Protocol.Rx` | libpisock/padp.c:403-668 | both loops compute what the step function's run does; the caller's buffer gets exactly the bytes accepted, behind what it held |
| `Padp.Protocol.ReadFragment` | libpisock/padp.c:578-656 | the inner loop that waits for the next fragment |
| `Padp.Protocol.SendAck` | libpisock/padp.c:824-876 | an acknowledgement repeats the packet's flags and size, and is remembered when it was sent |
| `Padp.Protocol.SetFreezeTxid` | libpisock/padp.c:786-796 | freezing and thawing |
| `PdbHistory.HistoryReadsBack` | libpisock/pi-file.c:172-333 | for every sequence of appends, accepted or rejected, and settings: reopening finds the records given for the first time, in order, with the same bytes, masked attributes, category and 24 bits of uid; looking up a uid finds the record if and only if no earlier one has the same 24 bits |
| `PdbHistory.BlocksReadBack` | libpisock/pi-file.c:172-333 | every history, also one that accepts nothing: the information accepted last as far as the header has room, the last info blocks, and the number of entries |
| `PdbHistory.ResourcesReadBack` | libpisock/pi-file.c:172-333 | the same for resource databases: the resources given for the first time, in order, each with its bytes, 32 bits of its type and 16 bits of its id |
| `PdbHistory.SmallUidsAreFound` | libpisock/pi-file.c:488-507 | when the uids have 24 bits, every record with a uid is found by it |
| `PdbHistory.RunTells` | libpisock/pi-file.c:622-674 | the database after a sequence of calls, told by the calls alone: what was accepted and which ids are in use |
| `PdbHistory.InfoTells` | libpisock/pi-file.c:555-568 | the information of the database is the last one given that does not turn records into resources |
| `PdbHistory.AcceptedUidsDiffer` | libpisock/pi-file.c:656-657 | accepted records with a uid have different uids |
| `PdbHistory.FindsFirst` | libpisock/pi-file.c:488-507 | lookup finds an index exactly if no earlier entry has the uid |
| `PdbRoundTrip.WrittenReadsBack` | libpisock/pi-file.c:1271-1379 | what closing writes, opening reads: the database information as far as the header has room, every entry with its offset and its size recovered from the offsets, both blocks |
| `PdbRoundTrip.SizesReadBack` | libpisock/pi-file.c:268-286 | sizes recovered backwards from the offsets are those of the items laid out forwards |
| `PdbRoundTrip.AcceptedFilesAreTiled` | libpisock/pi-file.c:231-286 | for every byte sequence accepted: no size is negative, each entry ends where the next begins and the last at the end of the file, in the arithmetic of C ints, and exactly so if and only if no offset stored in the table has its top bit set |
| `PdbRoundTrip.NegativeOffsetIsAccepted` | libpisock/pi-file.c:268-286 | a file of 86 bytes whose only record starts at offset -1 is opened |
| `PdbRoundTrip.StoredDate` | libpisock/pi-file.c:130-140 | a date survives if and only if it lies in the 32 bits that count from 1904 |
| `PiFile.Writer.constructor` | libpisock/pi-file.c:522-553 | a new file is the empty database |
| `PiFile.Writer.AppendRecord` | libpisock/pi-file.c:649-674 | on a growing array and a data buffer: the record is appended, or refused because the file is for resources or the uid is in use |
| `PiFile.Writer.AppendResource` | libpisock/pi-file.c:622-647 | the same for a resource and its type and id |
| `PiFile.Writer.AppendEntry` | libpisock/pi-file.c:1472-1502 | the entry array grows, and what it held stays |
| `PiFile.Writer.SetAppInfo` | libpisock/pi-file.c:570-594 | the block is replaced |
| `PiFile.Writer.SetSortInfo` | libpisock/pi-file.c:596-620 | the block is replaced |
| `PiFile.Writer.SetInfo` | libpisock/pi-file.c:555-568 | the information is replaced unless records and resources would change places |
| `PiFile.Writer.UidUsed` | libpisock/pi-file.c:509-520 | true exactly if a record has that uid; on a file of resources, whose entries have uid 0, exactly for 0 and a file that is not empty |
| `PiFile.Writer.FindResource` | libpisock/pi-file.c:1504-1522 | 1 with an index exactly if there is a resource of that type and id, 0 if not, and an error for a file of records |
| `PiFile.Writer.Close` | libpisock/pi-file.c:1270-1379 | the running offset produces the layout; 65536 items are refused |
| `PiFile.OpenFile` | libpisock/pi-file.c:172-333 | the two loops over the entry table and the checks accept a file exactly if the format function does, and yield what it yields |
| `PiFile.RecoverSizes` | libpisock/pi-file.c:268-286 | the backward loop over the array, in place |
| `PiFile.Reader.ReadRecord` | libpisock/pi-file.c:438-486 | bytes, attributes, category and uid of the entry, or an error; a failed seek leaves the file where it was |
| `PiFile.Reader.ReadResource` | libpisock/pi-file.c:402-433 | bytes, type and id of the entry, or an error |
| `PiFile.Reader.ReadRecordById` | libpisock/pi-file.c:488-507 | reads the first entry with that uid, or reports that there is none |
| `Backup.BackupRestores` | libpisock/pi-file.c:795-825 | for every record database: the backup, reopened and installed, leaves the target with exactly the records that are neither archived nor deleted, in order, if and only if each has a nonzero uid of 24 bits, attributes in the upper and a category in the lower half byte, and can be read in full |
| `Backup.RestoredExactly` | libpisock/pi-file.c:1050-1080 | the same for writing the saved items to a handheld, which replaces a record whose uid is in use and gives a uid to one that has none |
| `Backup.InstalledIsRestored` | libpisock/pi-file.c:1050-1080 | no record of a backup is skipped on installing, whatever the version, and each is read back as saved |
| `Backup.Copy` | libpisock/pi-file.c:683-1106 | retrieving, closing, opening and installing in a row: when all succeed, the target holds what `BackupRestores` says, and the application info block |
| `Backup.Retrieve` | libpisock/pi-file.c:795-825 | success appends the saved items and nothing else; from an empty file it succeeds exactly if no read fails and the transfer is not stopped |
| `Backup.Install` | libpisock/pi-file.c:853-1106 | exactly when installing succeeds and what the handheld then holds; and exactly when a failing call leaves no database of that name, deletions included that the handheld refuses |
| `Backup.SizeCheckGap` | libpisock/pi-file.c:893-899 | the sizes that pass the check and that writing refuses are exactly 65528 to 65536 bytes, below DLP 1.4 |
| `Backup.Handheld.WriteRecord` | libpisock/dlp.c:2509-2580 | below DLP 1.4 a record and eight bytes must fit 65535 |
| `DlpDevice.Device.DeleteCategory` | libpisock/dlp.c:2616-2643 | the loop over a list that it changes ends, leaves the records up to the first refusal swept and the rest as they were, and returns a negative number in every case |
| `DlpDevice.CategoryIsGone` | libpisock/dlp.c:2629-2642 | when nothing is refused: no live record of the category is left, all others are unchanged and in their order, and the deleted ones are there, marked |
| `DlpDevice.RefusalStops` | libpisock/dlp.c:2637-2640 | when one is refused, it and everything behind it are unchanged |
| `DlpDevice.Device.ReadNextRecInCategory` | libpisock/dlp.c:3176-3212 | returns the first record of the category at or behind the cursor, with its index, and moves the cursor behind it; fails when there is none, and when the second step of reading it is refused, with the cursor left at the record, which the next call finds |
| `DlpDevice.Enumerates` | libpisock/dlp.c:3176-3212 | after a reset, any number of calls returns indices of the category in ascending order, all of those before the cursor, and once a call has failed, all there are; then every call fails |
| `DlpDevice.EnumerationEnds` | libpisock/dlp.c:3176-3212 | one call more than there are records is enough |
| `DlpDevice.Enumerate` | libpisock/dlp.c:3176-3212 | a reset and any number of calls return the records and leave the cursor that `Enumerates` speaks of |
| `DlpDevice.Device.ResetDBIndex` | libpisock/dlp.c:2429-2459 | the cursor is back at the first record, whatever the device answers |
| `DlpDevice.Device.ReadRecordByIndex` | libpisock/dlp.c:3671-3765 | reading in one or two steps gives the record up to the maximum size; when the second step is refused the result is an error, and the first part is in the buffer |
| `DlpDevice.Device.ReadRecordById` | libpisock/dlp.c:3591-3669 | the record by uid, up to what requests of 16 bits reach; an error exactly if no record has it or the second step is refused, when the first part is in the buffer |
| `Md5.DigestOf` | libpisock/md5.c:47-129 | for every message and every way of splitting it, on machines of either byte order: the digest is that of sections 3.1 to 3.5 of RFC 1321 |
| `Md5.Context.Update` | libpisock/md5.c:61-94 | the state is the fold over the full blocks, the tail is in the buffer, and two words with a carry count the bytes |
| `Md5.Context.Finish` | libpisock/md5.c:100-129 | the digest of what was fed, for padding in one block and in two |
| `Md5.Context.Pad` | libpisock/md5.c:102-119 | both ways of padding leave the last block but for the length |
| `Md5.Context.Count` | libpisock/md5.c:65-69 | two words add up modulo 2^64 |
| `Md5.CountInBits` | libpisock/md5.c:122-123 | the shifted words are the low and the high word of the length in bits |
| `Md5.ByteSwap` | libpisock/md5.c:32-41 | puts the bytes of each word in the machine's order, on either kind of machine |
| `Md5Transform.Transform` | libpisock/md5.c:150-231 | the 64 unrolled steps on four rotating registers are the 64 table-driven steps of section 3.4 of RFC 1321 and the final addition |
| `Md5Transform.Round1` | libpisock/md5.c:159-174 | steps 1 to 16 with their words, constants and shifts |
| `Md5Transform.Round2` | libpisock/md5.c:176-191 | steps 17 to 32 |
| `Md5Transform.Round3` | libpisock/md5.c:193-208 | steps 33 to 48 |
| `Md5Transform.Round4` | libpisock/md5.c:210-225 | steps 49 to 64 |
| `Md5Transform.F1IsF` | libpisock/md5.c:135-137 | the rewritten first function is F of the standard |
| `Md5Transform.F2IsG` | libpisock/md5.c:138 | the second, by swapped arguments, is G |
| `Md5Transform.StepIsMix` | libpisock/md5.c:142-143 | the step macro is the standard's operation |
| `NetSpec.FirstIsReceived` | libpisock/net.c:448-543 | for every list of messages and tickles, whatever follows and whether or not a packet without a header is looked for: what is received is the first message and its id, and nothing behind it is touched; a framed packet is never taken for one without a header |
| `NetSpec.TypeStaysData` | libpisock/net.c:483-514 | for every list of messages and tickles and whatever follows: a call leaves a type other than that of data behind if and only if it finds no message and has read a header of another type |
| `NetSpec.TypeLeft` | libpisock/net.c:483-514 | which type that is: that of the bad header, or of the last tickle |
| `NetSpec.BadHeadersLeaveTheirTypes` | libpisock/net.c:483-514 | a tickle with a length and a packet of type 7 leave theirs |
| `Net.Relay` | libpisock/net.c:305-559 | from one end to the other, for every list of messages and tickles, every setting of the sender and every partial read: exactly the messages sent are returned, and only tickles behind the last one are left |
| `Net.SendMessages` | libpisock/net.c:305-389 | successive calls, under every setting of split writes and chunk size, put out exactly the stream of frames |
| `Net.ReceiveMessages` | libpisock/net.c:407-559 | successive calls return exactly the messages, in order, whatever part of what they ask for the reads get, and leave exactly what follows |
| `Net.Link.Rx` | libpisock/net.c:407-559 | nothing is returned that the stream does not hold, and what it holds is returned when every read gets something: payload, id, bytes consumed, packets without a header, bad packets, and the type left behind in every case; a first read that fails or times out is the result |
| `Net.Link.FindPacket` | libpisock/net.c:448-520 | skipping tickles and looking for a packet without a header find what the stream holds |
| `Net.Link.Tx` | libpisock/net.c:305-389 | what is put out is the frame up to the write that was cut short, under every setting of split writes and chunk size, and what is returned |
| `Net.AllIsTransmitted` | libpisock/net.c:325-382 | under every setting the whole frame goes out when the device takes as much as the largest write of that setting |
| `Net.CutShortLooksComplete` | libpisock/net.c:341-382 | some device makes a frame that was cut short look sent if and only if the first write asks for more than the packet: header by itself and a packet below six bytes, or else chunks not limited to the packet's size |
| `DlpArgs.ArgumentsReadBack` | libpisock/dlp.c:520-554 | for every list of arguments, between any other bytes: below DLP 1.4 it is refused if and only if one argument is in the long form; otherwise the data comes back, in order, with the flag bits taken from the ids, up to the last byte |
| `DlpArgs.SmallIdsReadBack` | libpisock/dlp.c:520-554 | with ids below 0x40 the list comes back exactly, or is refused below DLP 1.4 if and only if an argument has 65535 bytes or more |
| `DlpArgs.CutIsOverrun` | libpisock/dlp.c:520-554 | for every list of arguments cut off anywhere: the decoder reads past the end unnoticed if and only if a byte is missing that it needs |
| `DlpArgs.NeedsAll` | libpisock/dlp.c:520-554 | it needs every byte, unless it stops below DLP 1.4 at an argument in the long form |
| `DlpArgs.ArgLen` | libpisock/dlp.c:280-302 | the sum computed is the length of what is written |
| `DlpArgs.RequestWrite` | libpisock/dlp.c:573-629 | the block is filled to its last byte with command, count and arguments; a short write is -1 |
| `DlpArgs.ResponseRead` | libpisock/dlp.c:473-559 | the loop over the buffer decodes what the format says, with the errors for a short response and for a missing length |
| `LinuxUsb.RunConserves` | libpisock/linuxusb.c:247-351 | over every run of peeks and reads, what was delivered and what is still to come are the stream |
| `LinuxUsb.OneStream` | libpisock/linuxusb.c:285-351 | a peek shows the stream's front and changes nothing; a plain read takes exactly its front, also when it ends in a timeout |
| `LinuxUsb.SafeIsExact` | libpisock/linuxusb.c:322-338 | a call cannot overrun the 256 bytes, whatever the device delivers, if and only if it is not a peek of more than 256 bytes with something kept |
| `LinuxUsb.RunFits` | libpisock/linuxusb.c:322-338 | peeks of at most 256 bytes are safe in every run |
| `LinuxUsb.Port.Receive` | libpisock/linuxusb.c:285-351 | copying out of, shifting and extending the buffer in place does what the function on values says |
| `LinuxUsb.Port.ReadBuf` | libpisock/linuxusb.c:247-270 | the front of the kept bytes goes to the caller and, unless peeked at, leaves the buffer |
| `LinuxUsb.Port.Flush` | libpisock/linuxusb.c:371-393 | nothing is left of the stream |
| `ContactRoundTrip.ReadsBackExactly` | libpisock/contact.c:105-222 | a contact survives packing and unpacking unchanged, with its last picture and all bytes used, if and only if it is in normal form and each picture has its two bytes of head |
| `ContactRoundTrip.ContactReadsBack` | libpisock/contact.c:290-368 | for every contact: what comes back is its normal form, both sides agreeing on the length, or, when a picture has fewer than two bytes, unpacking reads past the record |
| `ContactCut.CutIsOverrun` | libpisock/contact.c:105-222 | for every contact packed and cut off anywhere: unpacking reads past the end unnoticed if and only if the record ends inside a string, inside the birthday, or six bytes or more into a blob, or holds a picture that is too short |
| `ContactRoundTrip.FlagsTell` | libpisock/contact.c:298-357 | the two masks tell of each string, the birthday and the reminder |
| `ContactCodec.Pack` | libpisock/contact.c:239-371 | the loops over strings and blobs, writing in place, the fixed part last, produce the record, whatever the buffer held |
| `ContactCodec.Room` | libpisock/contact.c:260-286 | the room reserved is enough |
| `ContactCodec.Extract` | libpisock/contact.c:80-223 | the moving pointer over strings, dates and blobs reads what the format says, with both error returns |
| `CalendarRoundTrip.ReadsBackExactly` | libpisock/calendar.c:281-472 | an event survives packing and unpacking unchanged if and only if it is in normal form and its last blob, if any, has data |
| `CalendarRoundTrip.EventReadsBack` | libpisock/calendar.c:500-635 | for every event: its normal form comes back through all sections, or unpacking fails exactly because the last blob is empty |
| `CalendarRoundTrip.SectionsReadBack` | libpisock/calendar.c:313-416 | the six optional sections one after the other |
| `CalendarRoundTrip.BlobsReadBack` | libpisock/calendar.c:423-467 | the blobs at the end, without the empty slots between them |
| `CalendarRoundTrip.BlobReadsBack` | libpisock/blob.c:114-166 | one blob, packed and unpacked |
| `CalendarCut.CutIsOverrun` | libpisock/calendar.c:281-472 | for every event packed and cut off anywhere: unpacking reads past the end unnoticed if and only if the record has its fixed part and ends inside the sections or more than six bytes into a blob |
| `CalendarCodec.Pack` | libpisock/calendar.c:488-636 | writing the sections in place, the flags when they are known, and appending the blobs produce the record |
| `CalendarCodec.Room` | libpisock/calendar.c:500-515 | the length computed is that of what is in front of the blobs |
| `CalendarCodec.PackBlob` | libpisock/blob.c:149-166 | one blob is appended to the buffer |
| `CalendarCodec.Extract` | libpisock/calendar.c:262-472 | the moving pointer reads what the format says, with its error return |
| `CalendarCodec.UnpackBlob` | libpisock/blob.c:114-135 | one blob, a length of 0x8000 or more being negative |
| `CalendarCodec.ShiftedDateBytes` | libpisock/calendar.c:522-527 | a date's parts, shifted together and cut to 16 bits, are the packed date |
| `Fields.DateReadsBack` | libpisock/calendar.c:289-292 | what a packed date comes back as |
| `Fields.NormalIsReal` | libpisock/calendar.c:289-310 | a real day comes back as a real day, which `mktime` leaves alone |
| `PiBuffer.Buffer.Append` | libpisock/pi-buffer.c:73-84 | what the buffer held, then the bytes |
| `PiBuffer.Buffer.Expect` | libpisock/pi-buffer.c:52-71 | there is room, and nothing moved |
| `PiBuffer.Buffer.Clear` | libpisock/pi-buffer.c:91-100 | nothing is held, and a large block is cut down |
| `Bytes.ShortRoundTrip` | include/pi-macros.h:41-101 | a number stored in two bytes comes back modulo 2^16 |
| `Bytes.TrebleRoundTrip` | include/pi-macros.h:41-101 | in three bytes, modulo 2^24 |
| `Bytes.LongRoundTrip` | include/pi-macros.h:41-101 | in four bytes, modulo 2^32 |

## Left out

- The layer below PADP (`libpisock/slp.c` with its checksums), sockets, select, USB calls, clocks and logging: their results
  are scripts over which the theorems quantify.
- The long packet format of PADP on receipt: a data fragment in that format ends the modelled run, because the code takes
  the wrong header length off it. Sending in that format is modelled.
- Delivery by PADP: the theorems say what holds when a call ends, not that the peer is reached. A transmission of type
  tickle with a message that is not empty never ends in the code and is excluded.
- Running out of memory, and who owns and frees which block.
- The fields of `struct Contact` and `CalendarEvent_t` are values; the buffers are written in place.
- `mktime` and the conversions to a handheld's time: dates are their year, month and day. The dates that are packed are
  real days, for which `mktime` is taken to change nothing, and so are those that come back (`Fields.NormalIsReal`). What it
  makes of other days, in records that were not packed here, and of times that a change of clocks skips is left out.
- Timezone blobs of calendar events: unpacking stops there in the model (`libpisock/location.c` is not part of it).
- CalendarRoundTrip.ReadsBackExactly: takes events whose dates and times are those of a calendar and a clock, whose blobs
  are no timezones and have at most 32767 bytes, and that have at most 65535 exceptions, which is what the fields hold.
- ContactRoundTrip.ReadsBackExactly: takes contacts whose birthday is a real day and whose blobs have at most 65535 bytes,
  which is what the length field holds.
- PadpMistake.AnsweringEndIsMistaken: leaves open what happens when the first party last acknowledged a packet with the id
  and the header of the answer's first fragment; it would acknowledge the answer as a repeat of that.
- PiFile.OpenFile: takes files of less than 2 GB, so that their size is a C int; `PdbRoundTrip.WrittenReadsBack` likewise.
- Backup.Install: models record databases, creation and deletion by name, and the lengthened memo block; renaming of the
  Graffiti database, resets of the handheld and the opening dialogue of retrieving are left out. The connection is up.
- Handshakes and options of the NET layer, and the DLP calls that only fill in one request.
- DlpArgs.RequestWrite: sums of lengths beyond the range of a C int are not modelled, nor the flush of the input before the
  write.
- Padp.Protocol.Tx: excludes a tickle with a message that is not empty, on which the code loops for ever.
- Padp.Protocol.Rx: a data fragment in the long format ends the modelled run, as said above.
- PiFile.Writer.Close: opening and writing the file itself succeed.
- Backup.Retrieve: starts behind the dialogue that opens the database.
- Net.ReceiveMessages: asks that every read gets something; `net_rx` would repeat an empty read inside a packet.
- LinuxUsb.Port.Receive: excludes exactly the calls that could overrun the buffer, which `SafeIsExact` tells.
- The final clearing of the MD5 context.
- `libpisock/mail.c`, `libpisock/hinote.c`, `libpisock/libusb.c`, `libpisock/darwinusb.c`, the other record formats, the
  language bindings and the programs: they would add duplicates of what is here or calls into code outside the repository.

# Verified model of the protocol, document and bookkeeping cores

A Dafny 4.11 model of the parts of this repository in which a small slip is hard to see: the Modbus register layout
from the editor to the wire, the CAN stream codecs and their send loop, the lossless settings document, the time
tracker's overlap marks, totals and month index, and the backup names, rotation and worker queue. `dafny verify
dfyconfig.toml` checks all of it.

## How the model is built

Code that works in place is a class or a method with loops, proved against a specification on values (`View`, `Views`,
`Rows`, `AsState`, `FeedResult`, `Parsed`, ...); the laws are lemmas about those values and hold for every input, every
chunking, every run of edits or every interleaving. One file per component:

| files | component |
|---|---|
| `Bytes`, `Crc`, `WindowScan` | machine integers, exclusive or and the CRC-16, greedy scanning of fixed-size windows |
| `Stm32Codec`, `LawicelCodec`, `LawicelStream`, `CanSendLoop`, `Stm32SendLoop` | CAN encoders, the two stream decoders, handshake and send loop over either adapter |
| `RegisterItems`, `RegisterLayout`, `LayoutLaws`, `LayoutEffects`, `LayoutEditor` | register rows, what an edit means, its laws, what it does to each row and when it is refused, the in-place editor |
| `RegisterGrouping`, `LayoutRanges`, `ValueCodec`, `ChunkedReads`, `GroupedPolling` | address ranges, ranges and groups, byte orders, chunked and grouped polling |
| `ModbusProtocol`, `ModbusReceiver`, `ModbusExchange`, `WirePolling` | requests and reply parsers, framing of received bytes, exchanges and sessions with a slave, polling and writing a table over the wire |
| `SettingsText`, `SettingsEdit`, `SettingsDocument`, `SettingsIniDocument` | lines and settings, one edited line, the whole document, the class |
| `Overlaps`, `WorkTotals`, `TimeEntries`, `MonthIndex`, `MonthLoading`, `TimeTracker` | overlap sweep, totals per day, a month's entries, the month index, what a load makes of it |
| `BackupNames`, `BackupRotation`, `BackupWorker` | owned names, rotation, the worker queue |

Parameters of the model: what comes back for a request and in which chunks (anything at all, or the reply of a slave
with two banks of 65536 registers, cut up in any way and followed by anything), which writes to the storage fail, which
fresh ids they choose and after how many rows a query breaks off, the calendar (month key, day of month, bounds of a
month), the names in a directory, and the schedule of threads. Byte strings are sequences of 0..255, floating-point
values are their raw bits, times are whole seconds. A row's size is its declared size or else its type's register count
(`src/interface/IModbusEntry.hpp:264-267`), and the port's CRC-16 (`src/utils/Crc16Modbus.hpp:18-33`) is the one of
`src/CanCodecs.cpp:47-57`. The frame layouts are those of the MODBUS Application Protocol V1.1b3 (sections 6.1 to 6.6
and 6.12), of MODBUS over Serial Line V1.02 (sections 2.5.1 and 6.2.2) and of MODBUS Messaging on TCP/IP V1.0b (section
3.1.3).

## What turned out not to hold everywhere

Each of these is proved together with the exact condition under which the promise does hold.

* A value typed into an empty setting whose comment follows directly (`key =   ; comment`) glues itself to the comment
  mark and swallows the comment at the next parse (`SettingsDocument.EditsSurviveIffWritable`, with a concrete text in
  `EmptyBeforeCommentIsLost`); `tests/SettingsIniDocumentTests.cpp:50-65` renders such a text.
* A time format that itself ends in `.7z` makes the job disown its own uncompressed backups
  (`BackupNames.OwnsItsNamesIff`).
* Frames from a Lawicel stream can depend on how the stream is cut into `Feed` calls. They do exactly when some line has
  a start character more than 64 bytes before its end, and what its last 64 bytes show from their first start character
  on is a frame (`LawicelStream.ChunkingIsIrrelevantIff`, with a family of such lines in `LongLinesDependOnChunking`);
  other long lines are harmless.
* A Modbus frame of three bytes or more is handed over whole, at its last byte and under every chunking, exactly when it
  frames itself (`ModbusReceiver.DeliveredIffSelfFraming`). The replies of the standard functions and exceptions do
  (`StandardReplySelfFrames`); over TCP a reply does exactly up to 254 bytes of unit data (`TcpReplySelfFrames`); over RTU
  a reply to a custom function code does only if it is 5 bytes long, and a longer one is already handed over at its
  fifth byte when it arrives bytewise.
* An insertion into a register group is refused exactly when one free register separates it from the next group
  (`LayoutLaws.InsertRefusedIff`): groups must stay apart, not merely disjoint.
* The send loop over an STM32 adapter ends exactly when every queued frame is encodable
  (`Stm32SendLoop.DrainsIffEncodable`): a frame it cannot encode is never removed.
* Loading breaks the month index exactly when a row it reads is already held, or was stored with an id of more than 32
  bits, those that read back as 0 aside: `src/TimeTrackerStorage.cpp:153` reads the id into an `int`, while a failed insertion
  (`src/TimeTrackerStorage.cpp:88-94`) leaves such a row in the table (`MonthLoading.LoadKeepsIff`, `QueryReadsWell`,
  and the row with id 0x8000_0000 in `OversizedIdBreaksIndex`). Nothing loaded later mends it. `LoadEntries` and `Init`
  clear the index first, so for them only the ids matter.
* A row whose id reads back as 0, like 2^32, is not loaded but inserted once more (`MonthLoading.ZeroIdIsCopied`).
* A backup name has one owner under one time format (`BackupNames.OneOwner`), but names made before a change of format
  can be owned, and rotated away, by another job: exactly when texts of one format can end in texts of the other
  (`BackupNames.SharedIff`, with concrete names in `BackupRotation.FormatChangeMovesOwnership`).
* A poll is abandoned, with everything read so far, exactly when a run of occupied addresses begins beyond the 16-bit
  addresses left above the table's base or 65536 addresses in a row are occupied (`GroupedPolling.AbandonedIff`).
* `src/DirectoryBackup.hpp` says that the worker mutex is never held while waiting on the future, but
  `src/DirectoryBackup.cpp:179-187` does hold it; the model follows the code and shows that this cannot deadlock.

## Model

| member | source | states |
|---|---|---|
| Crc.ModbusCrc | src/CanCodecs.cpp:47-57 | The nested loops compute the CRC as the fold of the per-byte step from 0xFFFF. |
| Crc.BitStepPlaces | src/CanCodecs.cpp:52-54 | One shift moves every place down by one and feeds a one that falls out back into places 0, 13 and 15. |
| Crc.ByteTakesEight | src/CanCodecs.cpp:50-55 | A byte enters by exclusive or at the low end and takes eight shifts. |
| Crc.ByteStepBijective | src/CanCodecs.cpp:50-55 | For each byte the step is a one-to-one map of the 16-bit states onto themselves, with its inverse given. |
| Crc.CrcFromInjective | src/CanCodecs.cpp:47-57 | Over any message, two starting states end equal only if they were equal. |
| Crc.AdjacentBytesDetected | src/CanCodecs.cpp:47-57 | Changing any two adjacent bytes of a message of any length, or one of them, changes the CRC; nothing else leaves it. |
| Crc.SingleByteDetected | src/CanCodecs.cpp:47-57 | Changing one byte at any position changes the CRC. |
| Crc.ResidueIsZero | src/ModbusProtocol.hpp:84-89 | A message followed by two bytes has CRC zero exactly when they are its CRC, low byte first. |
| WindowScan.GreedyUnique | src/CanCodecs.cpp:83-111 | A stream has at most one greedy leftmost choice of non-overlapping windows. |
| WindowScan.ScanIsGreedy | src/CanCodecs.cpp:83-111 | The cursor loop takes exactly that choice. |
| WindowScan.ScanExtends | src/CanCodecs.cpp:74-117 | Scanning a longer stream continues the scan of its beginning: nothing taken is revised. |
| Stm32Codec.WriteU32Le | src/CanCodecs.cpp:11-15 | Four bytes, little endian, and no other byte of the buffer changes. |
| Stm32Codec.EncodeStm32 | src/CanCodecs.cpp:59-73 | The 19-byte send frame of an encodable frame (at most 8 bytes, identifier up to 0x1FFFFFFF), nothing for any other. |
| Stm32Codec.SentBody | src/CanCodecs.cpp:59-73 | The bytes of a sent frame one by one: DD CC BB AA, the identifier low byte first, the length, the data, zeros up to byte 16. |
| Stm32Codec.SentCrc | src/CanCodecs.cpp:68-72 | Behind them their CRC, low byte first. |
| Stm32Codec.ValidWindowIff | src/CanCodecs.cpp:85-104 | A window is valid exactly when it begins with DE CC BB AA, has a length of at most eight at byte 8, and closes with the CRC of its first 17 bytes. |
| Stm32Codec.LookMeans | src/CanCodecs.cpp:83-104 | A position waits for four bytes, is passed over unless they are the magic, then waits for nineteen and is taken if they are a valid window. |
| Stm32Codec.Stm32StreamDecoder.Feed | src/CanCodecs.cpp:74-117 | The loop with cursor and one erase returns the frames and leaves the rest that the scan of buffer and new bytes prescribes. |
| Stm32Codec.FeedComposes | src/CanCodecs.cpp:74-117 | Feeding two pieces gives the frames and the rest of feeding them joined. |
| Stm32Codec.ChunkingIsIrrelevant | src/CanCodecs.cpp:74-117 | Any splitting into calls gives the frames and the rest of one call. |
| Stm32Codec.DecodesGreedyWindows | src/CanCodecs.cpp:74-117 | A fresh decoder emits exactly the greedy leftmost valid 19-byte windows of the whole stream, in any chunking, and keeps at most its last 18 bytes. |
| Stm32Codec.TakenMeansValid | src/CanCodecs.cpp:85-110 | A position is taken for a window exactly when magic, length and CRC of the 19 bytes there are valid; every stream has a greedy choice. |
| Stm32Codec.FrameSurvivesNoise | src/CanCodecs.cpp:98-104 | Noise in which no valid window begins, then a frame, yields that frame and then what follows it. |
| Stm32Codec.PrintedFramesDecode | src/CanCodecs.cpp:74-117 | Frames printed with the receive magic, joined and cut in any way, decode to exactly those frames with nothing left over. |
| Stm32Codec.AlteredByteIsRejected | src/CanCodecs.cpp:85-104 | Altering one byte anywhere in a valid window makes it invalid. |
| LawicelCodec.ParseHex | src/CanCodecs.cpp:33-44 | The 32-bit value of a non-empty hexadecimal text, nothing for any other text. |
| LawicelCodec.HexNumberReads | src/CanCodecs.cpp:33-44 | Up to eight digits read as n exactly when in upper case they are the fixed-width digits of n. |
| LawicelCodec.PaddedId | src/CanCodecs.cpp:124-131 | The identifier in upper case, padded with zeros to the width of its frame kind. |
| LawicelCodec.AppendData | src/CanCodecs.cpp:139-143 | Two upper-case digits per data byte, appended in order. |
| LawicelCodec.EncodeLawicel | src/CanCodecs.cpp:119-146 | The text line of an encodable frame, nothing for any other. |
| LawicelCodec.TagIs | src/CanCodecs.cpp:124-131 | An identifier below 0x800 goes out as a standard frame of 6 characters and two per byte, any other as an extended frame of 11. |
| LawicelCodec.ParseData | src/CanCodecs.cpp:207-216 | The bytes of an even number of digits, nothing when one is not a digit. |
| LawicelCodec.ParseLine | src/CanCodecs.cpp:186-218 | The checks in order give the parsed line of the specification. |
| LawicelCodec.ParsesExactlyTheText | src/CanCodecs.cpp:186-218 | A line parses to a frame exactly when in upper case it is that frame's text under its tag and the tag has room for the identifier. |
| LawicelStream.LawicelStreamDecoder.Feed | src/CanCodecs.cpp:148-184 | The loop drains buffer and new bytes as specified, ends, and leaves at most 64 bytes. |
| LawicelStream.KeptIs | src/CanCodecs.cpp:148-174 | Lines begin at t, T or V, and of an unfinished line the last 64 characters are kept. |
| LawicelStream.LineGives | src/CanCodecs.cpp:148-184 | A line gives the frame parsed from its first line start, if there is one; a stream gives those of its lines. |
| LawicelStream.DrainMeans | src/CanCodecs.cpp:148-184 | Draining any text yields the frames of its complete lines and keeps what is visible of the last 64 bytes of the unfinished one. |
| LawicelStream.DecodesCompleteLines | src/CanCodecs.cpp:148-184 | For a stream no line of which hides a frame behind a start character more than 64 bytes back, the frames are those of its complete lines in any chunking. |
| LawicelStream.ChunkingIsIrrelevantIff | src/CanCodecs.cpp:148-184 | Every chunking of a stream gives the frames of its complete lines exactly when no line hides a frame that way. |
| LawicelStream.MaskedLineShows | src/CanCodecs.cpp:164-174 | A line that hides a frame comes out differently when its carriage return arrives on its own. |
| LawicelStream.LongLinesDependOnChunking | src/CanCodecs.cpp:164-174 | A line over 64 bytes that gives no frame in one piece and one frame in two. |
| LawicelStream.LineDecodes | src/CanCodecs.cpp:119-146 | Parsing reads back what encoding wrote. |
| LawicelStream.EncodedFramesDecode | src/CanCodecs.cpp:148-184 | Encoded frames, joined and cut in any way, decode to exactly those frames. |
| CanSendLoop.CanDeviceLawicel.PrepareSendDataFormat | src/CanDeviceLawicel.cpp:48-69 | A due command is written and advances the handshake without removing the frame; afterwards each frame is removed, and written if it is encodable and fits. |
| CanSendLoop.CanSerialPort.AddToTxQueue | src/CanSerialPort.cpp:62-81 | Payloads are cut to eight bytes, empty ones ignored; beyond a hundred frames the oldest goes. |
| CanSendLoop.CanSerialPort.SendPendingCanFrames | src/CanSerialPort.cpp:111-136 | The loop ends with the queue empty, having written the commands still due, then each encodable frame once in order, and reported what it reports. |
| CanSendLoop.BatchesConcatenate | src/CanSerialPort.cpp:111-136 | However frames are batched over drains, the output is that of one drain: the commands are sent once. |
| CanSendLoop.HandshakeIsSilent | src/CanDeviceLawicel.cpp:27-32 | The remaining commands in front of a text add no frame to what it decodes to. |
| CanSendLoop.HandshakeOpens | src/CanDeviceLawicel.cpp:27-32 | An adapter that takes a bit rate only while closed, and may hold part of a command, ends open at 500 kbit/s. |
| CanSendLoop.DrainedFramesDecode | src/CanSerialPort.cpp:111-136 | All output over any run of drains, from any point of the handshake and in any chunking, decodes to exactly the encodable queued frames. |
| CanSendLoop.QueueKeepsNewest | src/CanSerialPort.cpp:68-81 | Over any run of additions the queue holds the newest hundred frames in order. |
| Stm32SendLoop.CanDeviceStm32.PrepareSendDataFormat | src/CanDeviceStm32.cpp:18-28 | The wire bytes of an encodable frame that fits, which is then removed; any other frame writes nothing and stays. |
| Stm32SendLoop.CanSerialPort.SendPendingCanFrames | src/CanSerialPort.cpp:111-136 | So many turns of the loop over an STM32 adapter leave the queue and the output that those turns prescribe. |
| Stm32SendLoop.TurnsStopAtUnencodable | src/CanSerialPort.cpp:111-136 | The turns send the encodable frames in front of the first one that is not, and then nothing more however many they are. |
| Stm32SendLoop.DrainsIffEncodable | src/CanSerialPort.cpp:111-136 | Over an STM32 adapter the loop ends exactly when every queued frame is encodable. |
| LayoutSpec.FindGroupIs | src/ModbusRegisterEditor.hpp:41-69 | The search succeeds with a group exactly when it is the maximal run of touching rows around the index. |
| LayoutSpec.FindGroupFails | src/ModbusRegisterEditor.hpp:41-69 | Where touching rows lead to an overlap the search fails, upwards first and then downwards. |
| LayoutLaws.RelaidGroup | src/ModbusRegisterEditor.hpp:71-86 | Rows laid out in place of a group form one maximal group at the old start address. |
| LayoutLaws.RelaidWellFormed | src/ModbusRegisterEditor.hpp:71-86 | Laying out non-empty rows that do not reach the next group keeps a layout well formed. |
| LayoutLaws.EditKeepsWellFormed | src/ModbusRegisterEditor.hpp:88-175 | Every move, insertion, deletion or type change, done or refused, keeps a layout well formed. |
| LayoutLaws.RunKeepsWellFormed | src/ModbusRegisterEditor.hpp:88-175 | So does every run of them. |
| LayoutLaws.EditIsLocal | src/ModbusRegisterEditor.hpp:88-175 | A successful edit changes only the group of its row; the group keeps its start, stays one group and touches no neighbour, all other rows stay as they are. |
| LayoutLaws.InsertRefusedIff | src/ModbusRegisterEditor.hpp:117-131 | On a well-formed layout an insertion is refused exactly when one free register separates the groups. |
| LayoutLaws.MoveUpThenDown | src/ModbusRegisterEditor.hpp:100-111 | Moving up and then down at the returned index is the identity. |
| LayoutLaws.InsertThenDelete | src/ModbusRegisterEditor.hpp:112-131 | Deleting the row just inserted restores the layout. |
| LayoutEffects.MoveUpDoes | src/ModbusRegisterEditor.hpp:100-105 | Moving up exchanges the row with the one above it, changes nothing else but addresses, and is refused exactly at the top of its group. |
| LayoutEffects.MoveDownDoes | src/ModbusRegisterEditor.hpp:106-111 | Moving down, likewise, is refused exactly at the bottom. |
| LayoutEffects.DeleteDoes | src/ModbusRegisterEditor.hpp:112-116 | Deleting takes out that row alone and is never refused; the selection goes to the row in its place or to the new last row. |
| LayoutEffects.InsertDoes | src/ModbusRegisterEditor.hpp:117-131 | Inserting adds a 16-bit row of the same branches without a value below the index and keeps every other row. |
| LayoutEffects.TypeRefusedIff | src/ModbusRegisterEditor.hpp:136-175 | A type change is refused exactly for a bit, for a type that is not a register of its own, or where the group would then reach the next one. |
| LayoutEffects.TypeChangeDoes | src/ModbusRegisterEditor.hpp:155-175 | On success the row has the new type, no declared size and no value; every other row is the same row. |
| LayoutEditor.RegisterTable.FindContiguousGroup | src/ModbusRegisterEditor.hpp:41-69 | The two outward walks find the specified group or report the specified overlap. |
| LayoutEditor.RegisterTable.Reflow | src/ModbusRegisterEditor.hpp:71-80 | The rows of a group get consecutive addresses from the start; all else stays. |
| LayoutEditor.RegisterTable.WouldOverlapNext | src/ModbusRegisterEditor.hpp:82-86 | Whether the group would touch or cross the row behind it. |
| LayoutEditor.RegisterTable.DeleteRow | src/ModbusRegisterEditor.hpp:112-116 | The row goes and the rest of its group is laid out from the old start. |
| LayoutEditor.RegisterTable.InsertRow | src/ModbusRegisterEditor.hpp:117-131 | A new row behind the index, or, when the group would reach the next one, the table exactly as before with the same row objects. |
| LayoutEditor.RegisterTable.EditLayout | src/ModbusRegisterEditor.hpp:88-134 | The in-place edit has the outcome the edit means on values; a refusal leaves order, addresses, types, sizes, values and the row objects themselves as they were, although an insertion is made before it is checked. |
| LayoutEditor.SameRowsAre | src/ModbusRegisterEditor.hpp:100-131 | Which row objects an edit keeps: a move exchanges two, a deletion takes one out, an insertion puts a new one in. |
| LayoutEditor.RegisterTable.ChangeType | src/ModbusRegisterEditor.hpp:142-175 | The type change has the outcome it means on values; a refusal, made after the group was laid out anew, leaves every row as it was. |
| LayoutEditor.InsertThenRemove | src/ModbusRegisterEditor.hpp:123-128 | Taking an inserted row out and laying the group out again restores the layout. |
| LayoutEditor.RetypeThenBack | src/ModbusRegisterEditor.hpp:166-172 | Restoring type, size and value and laying the group out again restores the layout. |
| RegisterGrouping.BuildContiguousRanges | src/ModbusRegisterGrouping.hpp:15-48 | Sorting and merging produce the plan of the branch: normal form, and exactly the addresses its rows occupy. |
| Bitwise.SharesBitIff | src/ModbusRegisterGrouping.hpp:22 | Two masks share a bit exactly when at some place both have a one. |
| RegisterGrouping.PlannedIff | src/ModbusRegisterGrouping.hpp:15-48 | An address is in the ranges exactly when a row that occupies it has a bit at a place where the branch has one. |
| RegisterGrouping.Sweep | src/ModbusRegisterGrouping.hpp:30-47 | The merge loop over sorted extents yields their normal form. |
| RegisterGrouping.NormalFormUnique | src/ModbusRegisterGrouping.hpp:15-48 | Non-empty sorted ranges with a gap between neighbours are determined by their addresses. |
| RegisterGrouping.PlanUnique | src/ModbusRegisterGrouping.hpp:15-48 | The ranges depend on the occupied addresses only, not on the order or overlap of rows. |
| LayoutRanges.RangesAreGroups | src/ModbusRegisterGrouping.hpp:15-48 | On a well-formed layout of one branch the ranges are exactly the groups the editor finds. |
| ChunkedReads.RegisterPort.ChunkedRead | src/ModbusMasterSerialPort.hpp:114-139 | The loop with its wrapping 16-bit offset makes the specified requests and returns their outcome, failing at the first bad reply. |
| ChunkedReads.ChunksTile | src/ModbusMasterSerialPort.hpp:122-137 | Every request is a valid range, there are exactly as many as the limit of 120 demands, and they tile the interval in order. |
| ChunkedReads.FirstBadDecides | src/ModbusMasterSerialPort.hpp:127-131 | The first failed or wrongly sized answer decides a chunked read: its error, or a wrong length, and no request after it. |
| ChunkedReads.GoodIsCollected | src/ModbusMasterSerialPort.hpp:122-137 | Without one, every request is sent and the words are put together in order. |
| ChunkedReads.ChunksReadMemory | src/ModbusMasterSerialPort.hpp:122-137 | Over a device that answers each request a PDU can carry with the slave's registers, the chunks put together are the registers of the interval. |
| ChunkedReads.ChunkedReadsMemory | src/ModbusMasterSerialPort.hpp:114-139 | A chunked read returns memory[offset..offset+count], and fails exactly for an empty or overrunning interval. |
| GroupedPolling.ReadGroupedRegisters | src/ModbusRegisterGrouping.hpp:64-86 | The poll reads the ranges of the plan in order; it is abandoned exactly when the rows are out of reach. |
| GroupedPolling.AbandonedIff | src/ModbusRegisterGrouping.hpp:69-73 | Some range cannot be addressed exactly when a run of occupied addresses begins beyond the 16-bit addresses left above the base, or 65536 addresses in a row are occupied. |
| GroupedPolling.AnswerStored | src/ModbusRegisterGrouping.hpp:74-83 | A failed or short answer counts as failed and stores nothing; any other stores the words of its range and no other. |
| GroupedPolling.RangesMirrorMemory | src/ModbusRegisterGrouping.hpp:69-84 | The words stored are exactly those of the ranges that end inside the address space, each with the slave's value; the others count as failed. |
| GroupedPolling.RangesFit | src/ModbusRegisterGrouping.hpp:71-73 | Rows that end inside the address space give ranges that do, and then only a range of all 65536 addresses cannot be addressed. |
| GroupedPolling.PollMirrorsMemory | src/ModbusRegisterGrouping.hpp:64-86 | The addresses collected are exactly those the rows occupy, each with the slave's word, and no read fails. |
| GroupedPolling.RefreshItem | src/ModbusHandler.cpp:420-475 | One row takes the value its words spell when all are there, and reports whether it changed. |
| GroupedPolling.RefreshItems | src/ModbusHandler.cpp:408-477 | All rows take their values and the changed rows up to index 255 are listed in order. |
| GroupedPolling.RowsRefined | src/ModbusHandler.cpp:420-471 | Over a faithful device, after a grouped, chunked poll every numeric row of the branch whose size covers its type holds what reading it alone would give. |
| GroupedPolling.RefreshIsReported | src/ModbusHandler.cpp:408-477 | Over a whole table a poll changes values only, and only of numeric rows of the branch whose words were all read; every changed row up to index 255 is reported, once and in order. |
| GroupedPolling.FloatEqualIff | src/ModbusHandler.cpp:420-471 | Single-precision values compare equal exactly when neither is a NaN and their bits are equal or are the two zeros. |
| GroupedPolling.DoubleEqualIff | src/ModbusHandler.cpp:420-471 | Likewise in double precision. |
| GroupedPolling.SameValueIff | src/ModbusHandler.cpp:420-471 | When a value read compares equal to the one held: same kind, and integers by value, the others as IEEE 754 has it. |
| GroupedPolling.ResolvesTo | src/ModbusHandler.cpp:583-591 | The manual address if there is one, else the row's, behind the table's offset; refused exactly when it does not fit 16 bits. |
| ValueCodec.OneWordSpells | src/ModbusRegisterValueCodec.hpp:27-31 | One word spells itself, with its bytes exchanged only in little-endian order. |
| ValueCodec.TwoWordsSpell | src/ModbusRegisterValueCodec.hpp:33-54 | Two words spell the sum of their powers of 65536: low word first in little-endian and default order, high word first in big-endian order, with the bytes of each word exchanged in the byte-swapped orders. |
| ValueCodec.FourWordsSpell | src/ModbusRegisterValueCodec.hpp:56-88 | Four words, likewise; a double for the floating type. |
| ValueCodec.Round16 | src/ModbusRegisterValueCodec.hpp:27-31 | Decoding a 16-bit encoding gives the value back in every byte order. |
| ValueCodec.Round32 | src/ModbusRegisterValueCodec.hpp:33-46 | Decoding a 32-bit encoding gives the value back in every byte order. |
| ValueCodec.Round64 | src/ModbusRegisterValueCodec.hpp:56-79 | Decoding a 64-bit encoding gives the value back in every byte order. |
| ValueCodec.WriteReadsBack | src/ModbusRegisterValueCodec.hpp:130-143 | The words of a value are as many as the type reads and decode to it modulo the width of the type. |
| ModbusProtocol.ParseReadRegistersResponse | src/ModbusProtocol.hpp:235-288 | The checks in order and the word loop give the parsed reply of the specification. |
| ModbusProtocol.UnwrapInverts | src/ModbusProtocol.hpp:239-267 | The transport checks accept exactly the frames that encase the data they return, under the expected transaction. |
| ModbusProtocol.HeadInverts | src/ModbusProtocol.hpp:239-275 | The checks shared by the parsers accept exactly such frames for the expected unit and function. |
| ModbusProtocol.RegistersParseIffPrinted | src/ModbusProtocol.hpp:235-288 | The register parser returns given registers exactly for the printed reply that carries them. |
| ModbusProtocol.BitsParseIffPrinted | src/ModbusProtocol.hpp:290-340 | The bit parser returns given bytes exactly for the printed reply that carries them. |
| ModbusProtocol.WriteParsesIffEchoed | src/ModbusProtocol.hpp:342-391 | The write parser accepts exactly the echo of offset and value or count. |
| ModbusProtocol.ExceptionIsReported | src/ModbusProtocol.hpp:271-273 | An exception reply is reported with its code by the checks all parsers share. |
| ModbusProtocol.AppendWriteRequest | src/ModbusProtocol.hpp:157-172 | One register makes a single write, more make a multiple write, behind whatever header the frame has. |
| ModbusProtocol.BuildWriteRegistersRequest | src/ModbusProtocol.hpp:141-176 | The framed write request, refused exactly for no values, more than 123, or past the address space. |
| ModbusProtocol.ReadRequestsDiffer | src/ModbusProtocol.hpp:213-233 | Two valid read requests are the same bytes exactly when they ask the same of the same unit (and, on TCP, in the same transaction). |
| ModbusProtocol.ReadRequestBytes | src/ModbusProtocol.hpp:213-233 | The six bytes of a read request, sent exactly for 1 to 125 registers inside the address space. |
| ModbusProtocol.CoilRequestBytes | src/ModbusProtocol.hpp:119-136 | The six bytes of a coil write: function 5 and FF00 or 0000. |
| ModbusProtocol.WriteRequestBytes | src/ModbusProtocol.hpp:141-176 | The bytes of a register write: function 6 for one register, function 16 with count and byte count for 2 to 123. |
| ModbusProtocol.FramedBytes | src/ModbusProtocol.hpp:124-136 | The MBAP header in front over TCP, the CRC behind over RTU. |
| ModbusProtocol.CoilWriteConfirmedByEcho | src/ModbusProtocol.hpp:119-136 | A coil write is confirmed by the request itself and by no other frame. |
| ModbusProtocol.SingleWriteConfirmedByEcho | src/ModbusProtocol.hpp:158-163 | So is a single register write. |
| ModbusReceiver.ModbusPort.OnUartDataReceived | src/ModbusMasterSerialPort.cpp:367-398 | Accumulating, cutting to the expected length, checking the CRC and handing over, as specified on values. |
| ModbusReceiver.SelfFramingIs | src/ModbusProtocol.hpp:189-211 | A frame frames itself exactly when its expected length is met at its end and at no earlier point. |
| ModbusReceiver.NothingEarly | src/ModbusMasterSerialPort.cpp:379-382 | In any chunking nothing is handed over while the bytes are a proper beginning. |
| ModbusReceiver.HandedOverAtEnd | src/ModbusMasterSerialPort.cpp:384-397 | In any chunking the last byte hands the whole frame over. |
| ModbusReceiver.AnyChunkingDelivers | src/ModbusMasterSerialPort.cpp:367-398 | A self-framing reply is handed over exactly at its last byte, in any chunking. |
| ModbusReceiver.DeliveredIffSelfFraming | src/ModbusMasterSerialPort.cpp:379-397 | A frame of three bytes or more is handed over under every chunking, and not before its last byte, exactly when it frames itself. |
| ModbusReceiver.StandardReplySelfFrames | src/ModbusProtocol.hpp:189-211 | Replies to functions 1-6 and 16 and exception replies frame themselves on both transports. |
| ModbusReceiver.StandardReplyIff | src/ModbusProtocol.hpp:189-211 | The standard replies in numbers: functions 1 to 4 with their byte count, 5, 6 and 16 with six bytes, exceptions with three. |
| ModbusReceiver.TcpReplySelfFrames | src/ModbusProtocol.hpp:191-198 | A TCP reply frames itself exactly up to 254 bytes of unit data. |
| ModbusReceiver.LateBytesChangeNothing | src/ModbusMasterSerialPort.cpp:373-397 | Bytes after a reply whose own bytes say where it ends do not disturb what was handed over. |
| ModbusReceiver.ReachedByChunks | src/ModbusMasterSerialPort.cpp:367-398 | After any chunks: nothing complete and nothing handed over, or a beginning of what came in that frames itself, or a frame without a length of its own. |
| ModbusReceiver.BeginningIsHandedOver | src/ModbusMasterSerialPort.cpp:367-398 | A frame whose own bytes say where it ends is handed over whenever the bytes received begin with it, in any chunking and whatever follows. |
| ModbusReceiver.ArrivesIff | src/ModbusMasterSerialPort.cpp:367-398 | A standard reply is handed over, its CRC found correct, exactly when the bytes received begin with it: in any chunking and with anything behind it. |
| ModbusExchange.ModbusMaster.SendAndAwait | src/ModbusMasterSerialPort.cpp:103-191 | What the chunks that come back hand over, or the error that silence, damage or an exception makes of them; the loop feeds every chunk in turn. |
| ModbusExchange.ModbusMaster.ReadRegister | src/ModbusMasterSerialPort.cpp:257-321 | One transaction identifier is used up, a valid request is sent, and the outcome is that of the reply under this transaction. |
| ModbusExchange.ModbusMaster.WriteHoldingRegister | src/ModbusMasterSerialPort.cpp:281-306 | A count that is not that of the buffer uses up nothing; otherwise the write is framed and sent if valid, and returned as sent when its echo confirms it. |
| ModbusExchange.ReadSucceedsIff | src/ModbusMasterSerialPort.cpp:257-270 | A read returns given registers exactly when the bytes that arrive begin with the reply carrying them under its transaction, for every arrival. |
| ModbusExchange.WriteSucceedsIff | src/ModbusMasterSerialPort.cpp:296-305 | A single or multiple write is confirmed exactly when the bytes that arrive begin with its echo. |
| ModbusExchange.ReadOnceIff | src/ModbusMasterSerialPort.cpp:194-270 | A single read returns registers exactly when its request is valid and the reply that carries them begins what comes back for it. |
| ModbusExchange.WriteOnceIff | src/ModbusMasterSerialPort.cpp:281-306 | A write returns exactly the frame it sent, exactly when the request is valid and its echo begins what comes back. |
| ModbusExchange.TcpFrameIsJudged | src/ModbusMasterSerialPort.cpp:119-147 | Over TCP a frame of up to 260 bytes is let through, or reported as an exception by the top bit of its function code. |
| ModbusExchange.OverlongIsDamaged | src/ModbusMasterSerialPort.cpp:119-139 | A TCP frame that announces more is handed over as far as it came, and found damaged unless that is all of it. |
| ModbusExchange.ReplyIsJudged | src/ModbusProtocol.hpp:235-288 | A register reply that is not the one asked for is told apart by its transaction, then its unit, its function and its number of registers. |
| ModbusExchange.EchoIsJudged | src/ModbusProtocol.hpp:341-392 | A write echo likewise, by its transaction, its unit, and then function, address and value together. |
| ModbusExchange.ExceptionReaches | src/ModbusMasterSerialPort.cpp:139-145 | Whatever exception reply arrives, the read and the write report an exception. |
| ModbusExchange.CutShort | src/ModbusMasterSerialPort.cpp:379-382 | A standard reply that stops before its end counts as no reply. |
| ModbusExchange.AlteredReplyIsRefused | src/ModbusMasterSerialPort.cpp:390-393 | Over RTU a register reply with any one byte altered gives no registers, whatever follows it; behind the byte count the CRC mismatch is what is reported. |
| ModbusExchange.ReadServed | src/ModbusProtocol.hpp:213-233 | A slave that follows the protocol takes the request frame for exactly the read it encodes. |
| ModbusExchange.WriteServed | src/ModbusProtocol.hpp:141-176 | And the write frame for exactly the write it encodes, single or multiple. |
| ModbusExchange.SessionIsDirect | src/ModbusMasterSerialPort.cpp:181-321 | Any session of reads and writes with a slave, on either transport and with every reply cut up in any way, answers and leaves the slave as the same calls on the registers themselves. |
| ModbusExchange.LinkIsFaithful | src/ModbusMasterSerialPort.cpp:257-321 | The port's single read over such a link answers every request a PDU can carry with the slave's registers. |
| WirePolling.PollRefinesRowReads | src/ModbusHandler.cpp:487-498 | Over the wire, every row a poll decodes gets what reading it alone over the wire gives, which is what the slave's registers spell; no read fails. |
| WirePolling.WriteThenPoll | src/ModbusHandler.cpp:583-630 | An integer written to a row over the wire is confirmed, and the next poll reads it back modulo the width of its type; rows that share no register with it read as before. |
| SettingsIniDocument.TrimView | src/SettingsIniDocument.cpp:22-29 | The two trimming loops. |
| SettingsIniDocument.NormalizeText | src/SettingsIniDocument.cpp:31-42 | Lower case without underscores, dashes and white space. |
| SettingsIniDocument.FindInlineComment | src/SettingsIniDocument.cpp:44-55 | The first comment mark at the start of the value or after white space, or the length. |
| SettingsIniDocument.ReadSetting | src/SettingsIniDocument.cpp:122-147 | Key, value, comment and span of a setting line, nothing for a line without equals sign or key. |
| SettingsIniDocument.ReadLines | src/SettingsIniDocument.cpp:75-100 | The lines with their own endings, CR LF counting as one. |
| SettingsText.EditableIff | src/SettingsIniDocument.cpp:57-67 | Which sections are left alone, by their normalised names and their beginnings. |
| SettingsText.HeaderIff | src/SettingsIniDocument.cpp:109-120 | A header is a bracketed name with anything behind it; a bracket never closed is malformed. |
| SettingsText.ValueIff | src/SettingsIniDocument.cpp:107-130 | A setting counts in an editable section on a line that is neither comment nor header. |
| SettingsText.JoinOfSplit | src/SettingsIniDocument.cpp:75-100 | Splitting a text into lines loses nothing. |
| SettingsText.SplitOfJoin | src/SettingsIniDocument.cpp:75-100 | Lines that look like the lines of a text are the lines of their joined text. |
| SettingsText.SettingHasShape | src/SettingsIniDocument.cpp:122-141 | Where a setting's equals sign, value and comment mark are. |
| SettingsText.ShapeIsSetting | src/SettingsIniDocument.cpp:122-141 | A line of that shape reads as that setting. |
| SettingsEdit.EditedSetting | src/SettingsIniDocument.cpp:176-182 | Replacing the value by a writable one keeps key and comment and reads back the value. |
| SettingsEdit.GluedSetting | src/SettingsIniDocument.cpp:44-55 | A value put into an empty place right before a comment mark reads back longer than it is. |
| SettingsEdit.ParsedValueIsClean | src/SettingsIniDocument.cpp:133-141 | Every value a parse produces has no break, no outer white space and no comment mark that counts. |
| SettingsEdit.EditedKind | src/SettingsIniDocument.cpp:109-130 | An edited setting line is still a setting line of its section. |
| SettingsDocument.ScanFinds | src/SettingsIniDocument.cpp:107-158 | The entries found are the settings of their own lines, in line order. |
| SettingsDocument.ScanFindsAll | src/SettingsIniDocument.cpp:107-158 | Up to the first unclosed header there is an entry for every setting line of an editable section, under the section it stands in, and no other. |
| SettingsDocument.EntriesAre | src/SettingsIniDocument.cpp:69-166 | The entries of a text are exactly the settings of its lines before the first unclosed header, each under the section it stands in. |
| SettingsDocument.SectionIsLastHeader | src/SettingsIniDocument.cpp:109-120 | A line stands in the section of the last header before it. |
| SettingsDocument.VerdictIs | src/SettingsIniDocument.cpp:69-166 | An empty text, the first unclosed header by its number, or whether any setting was found. |
| SettingsDocument.RenderGivesBack | src/SettingsIniDocument.cpp:168-189 | Without an edit, rendering gives the text back byte for byte, also after a failed parse. |
| SettingsDocument.EditChangesOneSpan | src/SettingsIniDocument.cpp:168-189 | Setting one value replaces its span of the text and keeps every other byte. |
| SettingsDocument.EditsSurviveIffWritable | src/SettingsIniDocument.cpp:69-189 | After a successful parse, for any values set on any entries: rendering and parsing again finds the same sections, keys, comments and lines with the new values exactly when each value is clean and not put into an empty place before a comment. |
| SettingsDocument.EmptyBeforeCommentIsLost | tests/SettingsIniDocumentTests.cpp:50-65 | A concrete text and clean value for which the edit does not survive. |
| SettingsIniDocument.SettingsIniDocument.Parse | src/SettingsIniDocument.cpp:69-166 | The method leaves the specified lines, marks, entries and verdict, in every error case too. |
| SettingsIniDocument.SettingsIniDocument.Render | src/SettingsIniDocument.cpp:168-189 | The loop returns the rendered document. |
| SettingsIniDocument.SettingsIniDocument.SetValue | src/SettingsIniDocument.hpp:37-38 | One entry's value changes and nothing else. |
| Overlaps.OverlapIff | src/TimeTrackerLogic.cpp:25-28 | Two intervals overlap exactly when both last through some second. |
| Overlaps.Sweep | src/TimeTrackerLogic.cpp:16-33 | Over any order sorted by start, an interval is marked exactly when another one overlaps it. |
| Overlaps.SortedIndices | src/TimeTrackerLogic.cpp:12-14 | A permutation of the indices sorted by start. |
| Overlaps.DetectOverlaps | src/TimeTrackerLogic.cpp:9-34 | The marks are those of comparing every pair: both positive, each starting before the other ends. |
| WorkTotals.SecondsAre | src/TimeTracker.cpp:129-135 | An interval counts with its length when it is positive and shares no second with another positive one, else not at all. |
| WorkTotals.ShownIsWorked | src/TimeTracker.cpp:129-176 | The day totals shown add up to the time of all positive unmarked entries: grouping by day conserves it. |
| WorkTotals.CarriesIffNewDay | src/TimeTracker.cpp:163-169 | A row carries its day's total exactly when it is the first unmarked row of that day. |
| WorkTotals.WorkedIsBusy | src/TimeTracker.cpp:129-135 | Counted entries share no second: the total is the number of busy seconds. |
| WorkTotals.WorkedFitsSpan | src/TimeTracker.cpp:129-176 | The total never exceeds the time from the earliest counted start to the latest counted end. |
| TimeEntries.MonthlyTimeEntry.FlagOverlaps | src/TimeTracker.cpp:116-127 | Every entry's flag is set to whether another entry overlaps it; nothing else of it changes. |
| TimeEntries.MonthlyTimeEntry.DayTotals | src/TimeTracker.cpp:129-135 | The map of totals per day of the positive unmarked entries. |
| TimeEntries.ColoursAlternate | src/TimeTracker.cpp:137-160 | Rows change colour exactly from one date to the next, the first date not white. |
| TimeEntries.MonthlyTimeEntry.BuildView | src/TimeTracker.cpp:137-176 | The rows per day in order with date, colour, totals and flags, and the total of what they show. |
| TimeEntries.MonthlyTimeEntry.Serialize | src/TimeTracker.cpp:111-176 | Together: flags, view, and a total equal to the time worked. |
| MonthIndex.OnePlace | src/TimeTracker.cpp:179-207 | In a consistent index an id has one place at most, in the bucket of its own start. |
| MonthIndex.StepKeepsConsistent | src/TimeTracker.cpp:179-347 | Adding, loading, editing, removing, forgetting, a failed call and an orphaned insert keep the index consistent: no empty bucket, each row in the bucket of its start, equal to its storage row, each id once. |
| MonthIndex.RunKeepsConsistent | src/TimeTracker.cpp:51-347 | So does every run of such steps. |
| MonthIndex.StepMeans | src/TimeTracker.cpp:51-347 | What each step does to the storage and to the rows shown: adding, loading, editing, removing and forgetting, and nothing else. |
| MonthIndex.StepAppends | src/TimeTracker.cpp:201-206 | A new or loaded row comes last in the bucket of its start; every other bucket stays as it is. |
| MonthIndex.EditIsLocal | src/TimeTracker.cpp:237-265 | After an edit the new row is shown and every row of another id is shown as before. |
| MonthIndex.DropIsLocal | src/TimeTracker.cpp:306-317 | After a removal exactly the rows of other ids are shown. |
| MonthIndex.ErasedIsWithout | src/TimeTracker.cpp:306-317 | Erasing the entry, and its month when left empty, removes the id and nothing else. |
| MonthIndex.MovedIsEdited | src/TimeTracker.cpp:256-264 | Overwriting the entry and moving it to its month is the edit on values. |
| MonthLoading.ResultUnique | src/TimeTrackerStorage.cpp:137-161 | A query has one result: the rows of the range by start and id, or, where it breaks off, the first so many of them. |
| MonthLoading.LoadingKeepsIffAllowed | src/TimeTracker.cpp:77-82 | A load leaves a consistent index consistent exactly when every step of it was allowed at its turn: no later step mends an earlier one. |
| MonthLoading.LoadKeepsIff | src/TimeTracker.cpp:77-82 | That is so exactly when each row was read as it is stored, no bucket held it and no id was read twice, rows read with id 0 aside. |
| MonthLoading.QueryReadsWell | src/TimeTrackerStorage.cpp:150-158 | For the rows of a query, exactly when every id fits an int and no bucket holds it, ids that read back as 0 aside. |
| MonthLoading.CheckedBeforehand | src/TimeTracker.cpp:58-84 | A range without held rows and without oversized ids loads well: both can be checked before the call. |
| MonthLoading.OversizedIdBreaksIndex | src/TimeTrackerStorage.cpp:88-94 | A concrete row left by a failed insertion, read back under an id that no row has: the index is inconsistent and the entry can be neither edited nor removed. |
| MonthLoading.ZeroIdIsCopied | src/TimeTracker.cpp:187-197 | A row whose id reads back as 0 is inserted again under a new id; the copy is stored and shown. |
| MonthLoading.LoadingFills | src/TimeTracker.cpp:77-82 | Rows that belong to one month go to the end of its bucket in the order of the query, and nowhere else. |
| MonthLoading.LoadingShows | src/TimeTracker.cpp:77-82 | A load shows the rows of its steps and hides none. |
| MonthLoading.PlainLoads | src/TimeTracker.cpp:77-82 | Rows with ids of 32 bits other than 0 are shown exactly as stored, and the storage is only read. |
| TimeTracker.Storage.Insert | src/TimeTrackerStorage.cpp:75-95 | A fresh id and row, or failure; a row whose id is too large stays in the table although the call fails. |
| TimeTracker.Storage.LoadRange | src/TimeTrackerStorage.cpp:131-162 | The rows that start in the range by start and id, their ids cut to 32 bits; the first so many where the query breaks off. |
| TimeTracker.TimeTracker.AddEntry | src/TimeTracker.cpp:179-207 | For any state and id, one step: the row loaded, or for id 0 inserted, at the end of its bucket, or no entry changed; from a consistent index it stays consistent exactly when that step was allowed. |
| TimeTracker.TimeTracker.FindEntry | src/TimeTracker.cpp:209-221 | An entry with the id, or null exactly when no bucket holds it. |
| TimeTracker.TimeTracker.EditEntry | src/TimeTracker.cpp:237-265 | Valid; success is exactly the edit on buckets and storage, failure changes neither. |
| TimeTracker.TimeTracker.RemoveEntry | src/TimeTracker.cpp:288-321 | Valid; success removes the id from buckets and storage, failure changes neither. |
| TimeTracker.TimeTracker.MoveEntryToMonth | src/TimeTracker.cpp:323-347 | The entry moves to the end of the other month, an emptied month goes; fails exactly when no bucket holds the id. |
| TimeTracker.TimeTracker.ValidIsSound | src/TimeTracker.cpp:179-207 | In a consistent index every entry object has one position, which is what loading and showing a month rely on. |
| TimeTracker.TimeTracker.LoadEntriesForOneMonth | src/TimeTracker.cpp:58-84 | Every row of the query becomes one step, in order, and the month gets its flags, view and total; a consistent index stays so exactly when the rows were read well. |
| TimeTracker.TimeTracker.LoadEntries | src/TimeTracker.cpp:51-56 | From any buckets: they are forgotten and hold what the query returned, the bucket of the month alone when its rows belong there, with flags, view and total; consistent exactly when every id comes back, or comes back as 0. |
| TimeTracker.TimeTracker.SerializeEntriesForOneMonth | src/TimeTracker.cpp:96-177 | Buckets and storage stay as they are; the month shown has its flags, view and total. |
| TimeTracker.TimeTracker.MonthAsRead | src/TimeTracker.cpp:96-177 | A month shown after a load has the entries, flags, view and total of the rows read. |
| BackupNames.MatchesTimeFormat | src/DirectoryBackupCore.cpp:62-96 | True exactly when the format is understood and the text fills it character by character and digit by digit. |
| BackupNames.IsRotatableTimeFormat | src/DirectoryBackupCore.cpp:126-144 | True exactly when the format is understood and has a digit specifier. |
| BackupNames.SlotsOfUnit | src/DirectoryBackupCore.cpp:62-96 | Unit by unit: a character, a doubled percent sign, a specifier with its digits; nothing else is understood. |
| BackupNames.SpecifierDigits | src/DirectoryBackupCore.cpp:49-60 | Four digits for the year, three for the day of the year, two for eleven more specifiers. |
| BackupNames.ArchiveEnd | src/DirectoryBackupCore.cpp:62-96 | What fills a format ends in ".7z" by its fixed characters exactly when the format does. |
| BackupNames.OwnedIff | src/DirectoryBackupCore.cpp:146-159 | A name is owned exactly when it is the source name, a filled-in format and an optional ".7z", the plain form only if the format does not end in ".7z". |
| BackupNames.OwnsItsNamesIff | src/DirectoryBackupCore.cpp:146-159 | Ownership recognises exactly the names a job produces if and only if its format does not end in ".7z". |
| BackupNames.SharedIff | src/DirectoryBackupCore.cpp:146-159 | Two sources can own one name, each under its format, exactly when filled-in texts of one format can end in texts of the other, shorter one. |
| BackupNames.OneOwner | src/DirectoryBackupCore.cpp:146-159 | Under one format a name is owned by one source at most. |
| BackupRotation.RotationCandidates | src/DirectoryBackupCore.cpp:169-195 | Exactly the smallest owned names beyond the limit less one, in order; none without a limit. |
| BackupRotation.RotationLeaves | src/DirectoryBackupCore.cpp:190-194 | With the backup about to be made, as many owned names are left as the limit says, or all of them if they are fewer; without a limit nothing goes. |
| BackupRotation.OthersAreKept | src/DirectoryBackupCore.cpp:169-195 | Rotation for one source removes no backup of another. |
| BackupRotation.FormatChangeMovesOwnership | src/DirectoryBackupCore.cpp:146-159 | Concrete names and two formats: after a change of format a job owns a backup that another job made before. |
| BackupRotation.EarlierIff | src/DirectoryBackupCore.hpp:13 | The earlier of two times is decided by the first field that differs. |
| BackupRotation.EarlierIsLess | src/DirectoryBackupCore.hpp:13 | With fields of fixed width from the most significant on, an earlier time has the smaller text. |
| BackupRotation.OwnedNameHasTime | src/DirectoryBackupCore.hpp:13 | Under the default format every owned name is the name of some time. |
| BackupRotation.KeptAreAtLeastAsNew | src/DirectoryBackupCore.cpp:188-194 | Under the default format every backup kept is at least as new as every backup removed. |
| BackupWorker.StepKeepsInv | src/DirectoryBackup.cpp:170-226 | Every step of every thread keeps the invariant of mutex, flag, queue, future and workers. |
| BackupWorker.OneMoreStep | src/DirectoryBackup.cpp:170-226 | A run goes on by any step that is then enabled, and by no other. |
| BackupWorker.EveryReachableState | src/DirectoryBackup.cpp:170-226 | In every interleaving: every call for a job is in its caller's hand or was pushed, each once; jobs leave the queue in the order they came and are copied in that order, each once, the one a worker carries being the one popped last; at most one worker serves, under the flag; outside a caller a waiting job has a worker; a worker that is waited for needs the mutex no more; IsInProgress answers true exactly while a worker serves, and false only when all jobs were copied. |
| BackupWorker.StepConserves | src/DirectoryBackup.cpp:170-226 | Every step keeps in balance what was asked for, pushed, popped and finished. |
| BackupWorker.SomethingMoves | src/DirectoryBackup.cpp:184-204 | No deadlock: unless all threads are finished, one can go on without a new call. |
| BackupWorker.StepUsesWork | src/DirectoryBackup.cpp:170-220 | Each step without a new call uses up some of the remaining work. |
| BackupWorker.QuietMeansDrained | src/DirectoryBackup.cpp:193-220 | When all threads have finished, every job asked for was copied exactly as often as asked for, in the order of the queue, and the flag is clear. |
| BackupWorker.EveryScheduleDrains | src/DirectoryBackup.cpp:170-220 | Without new calls every schedule ends within the remaining work, and where it can go no further every job was copied. |

## Left out

- Panels, tray, hotkeys, sockets, SQLite, archiving, copying and hashing of files, logging and listeners: input, output and foreign calls.
- XML and JSON loaders, number formatting and scaling, CSV export: plumbing around libraries that are not part of this model.
- The polling of coils and input bits (`ReadGroupedModbusBits`, `HandleBoolReading`): the ranges are those modelled, the rest unpacks single bits.
- Recording and counting of frames, and `SendCustomCommand`: an exchange is modelled from building the request to parsing the reply, with the time limit as the point where no further chunk comes.
- Bytes of an earlier reply that arrive after the next request was sent: an arrival belongs to the request before it.
- `DidHandler` and the ISO-TP link: they rest on classifiers and a C library that are not part of this model.
- Null rows in a register table: the model's tables hold rows only.
- `size_t` addresses: they are unbounded here, so an offset near 2^64 does not wrap; 16-bit and 32-bit values do as in the source.
- Floating-point values: they are compared and stored as raw bits, with NaN and the two zeros as IEEE comparison has them; no rounding.
- Error texts of edits, parsers and the tracker: they are constructors, not strings.
- `LoadFromFile`, `SaveToFileAtomically`: file access around `Parse` and `Render`.
- Changes to entries other than their value through the settings document's `Entries()`: only values are assigned by the dialog and the tests.
- `isspace`, `tolower` and `toupper` outside the "C" locale.
- Pointers to time entries kept by the panel, and `SaveEntry`, which writes such direct changes to the storage.
- Stored ids below the 32-bit range: SQLite numbers new rows upwards from the largest id, so a new id is taken not to lie below it; rows with such ids, were they there, are read as the code reads them.
- The calendar: month key, day of month and month bounds are functions given to the tracker, not computed from dates.
- A tracker without a storage object: it behaves like one whose storage is not open.
- Sub-second times: entries are in whole seconds, as the storage keeps them.
- `RotateOwnedBackups` beyond the candidates: it deletes them and partial copies.
- `%e` in backup formats: it counts as two digits, as in the source, although it prints a space before a single digit.
- Removing and updating backup entries while a backup runs, cancelling, destruction of `DirectoryBackup`, and a failure to start the worker thread: the protocol covers callers and workers before destruction, with threads that start.
- Jobs with an id that does not exist: such a call returns before it takes the worker mutex.
- Producers that add to the CAN queue while it is being drained.

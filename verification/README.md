# zlibs utilities, modelled and proved

A Dafny model of the stateful parts of the zlibs utilities library, and proofs of what they promise.
`dafny verify dfyconfig.toml` checks the whole project.

- **EmuEEPROM** (`emueeprom_*.dfy`): a key/value store kept as a log on two rotating flash pages, with a factory
  page, a RAM mirror and a staged write block, after section 2.1 of ST application note AN3969.
  `emueeprom_driver.dfy` is the driver as an object over three byte arrays, for any page size P, write block W and
  address count the static asserts allow; every method of it is proved equal to a function on values
  (`emueeprom_model.dfy`) that also records each flash operation with the flash contents before it. The theorems are
  about those functions: refinement to a map, write-once flash, transfers and capacity, start-up from arbitrary
  contents, and power cuts between any two flash operations.
- **MIDI** (`midi_*.dfy`): the MIDI 1 byte-stream parser with running status and SysEx chunking, the printer from
  packets to bytes, the separate SysEx7 packetiser, the packets bit by bit, and BLE packet framing. The packet formats are those of
  M2-104-UM (Universal MIDI Packet), version 1.1, sections 7.3, 7.6 and 7.7; running status is the rule of the MIDI 1.0
  Detailed Specification. Field readers are taken to match the builders in the same header.
- **Ring buffer** (`ring_buffer.dfy`): the object as one thread uses it, and the single-producer, single-consumer
  protocol as a state machine of individual loads, buffer accesses and stores.
- **Signaling** (`signaling*.dfy`): any number of threads that publish, dispatch synchronously or drain, the
  dispatcher, its FIFO and its slab of nodes, as a state machine of their individual actions: what it keeps, and that
  nobody who waits is forgotten.
- **Calendar** (`calendar.dfy`): date-time normalisation as the chain of loops it is, against absolute seconds counted
  day by day in the proleptic Gregorian calendar (section 3.2.1 of ISO 8601:2004), and the weekday.
- **LessDb** (`lessdb_*.dfy`): parameters of one bit to four bytes packed into a byte store, with the one-entry read
  cache, over a store in which any operation may fail and any write may store something else.
- **SysExConf** (`sysex_conf*.dfy`): the request/response protocol over reassembled packets in one 79-byte buffer, for
  any behaviour of the data handler, which is a function of all calls made to it so far.

In the parts that change state, objects with fields and arrays have methods with the loops of the source, and each
method's contract gives the whole new state by a function on values; the laws are lemmas about those functions.
Concurrent parts are state machines of sequentially consistent steps.

## Where the code does less than it seems to

- EmuEEPROM: between the erase of the old page and the Valid record of the new one a power cut loses every value
  (`EmuCrash.EveryTransferHasAWindow`). A write to a store whose live values need all blocks is refused although the
  address count is allowed (`EmuSteady.WriteSteady` gives the exact condition). Writing 0xFFFF removes a value exactly
  when the entry stays in the staged block and the address was not durable
  (`EmuAbsent.ErasedValueBringsBackTheOld`). A power cut during a restore from the factory page can leave nothing, or
  part of the snapshot, and one during a snapshot a partial snapshot (`EmuFactoryCuts.RestoreCuts`,
  `EmuFactoryCuts.CutSnapshotRestores`); a snapshot that fills its page cannot be restored without a restart
  (`EmuFactoryCuts.FullSnapshotNeedsRestart`).
- MIDI: a real-time byte between two bytes of another message, and only there, makes the parser lose that message
  (`MidiRealTime.RealTimeInsideMessageLosesIt`). The packetiser does not end by itself on an empty payload
  (`MidiStream.WriteSysEx7Payload`).
- BLE: an End packet with payload outside an open SysEx is not read back intact unless its end byte gets a packet to
  itself (`MidiBle.UnopenedEndIsDamaged`).
- Calendar: the weekday is wrong in January and February of year 0 (`Calendar.WeekdayIffFromMarch`), and a month that is
  off by more than one is not carried (`Calendar.FoldCarriesOneMonth`).
- LessDb: clearing the store does not drop the cached byte (`LessDbStore.CacheAfterClear`), and bits from index 2048 of
  a section on fall into bytes of earlier ones (`LessDbDatabase.BitPlace`).
- SysExConf: the guard in `add_to_response` alone would let a value end on the last byte of the buffer and leave none
  for the end byte; the message layouts keep the counter even, so it never comes to that (`SysExModel.Values`). A
  backup of a single parameter gives a frame without its index, which cannot be sent back
  (`SysExSession.BackupSingleRefused`); a SET of a part that is refused has set the values before the one refused
  (`SysExParts.SetPart`).

## Model

| member | source | states |
|---|---|---|
| EmuRuns.CrashRecovery | module/src/utils/emueeprom/emueeprom.cpp:27-233 | For any run of plain writes (values other than 0xFFFF) and flushes from a steady store with nothing staged, and a power cut before any flash operation of the run: unless the cut is in the window of a transfer, a fresh start rebuilds exactly the map of a prefix of the accepted writes; the prefix includes every write before the last flush, and everything but the writes staged before the interrupted call |
| EmuRuns.CrashRecoveryRepeated | module/src/utils/emueeprom/emueeprom.cpp:27-233 | The same after any series of start-ups that are themselves cut, each at any flash operation outside the window |
| EmuCrash.RecoverHolds | module/src/utils/emueeprom/emueeprom.cpp:27-233 | Start-up from any contents whose valid page carries a mirror rebuilds that mirror, steady and durable, and each of its own flash operations leaves contents that still carry it or is in the window |
| EmuCrash.RepeatedCuts | module/src/utils/emueeprom/emueeprom.cpp:27-233 | Cutting recovery again and again outside the window loses nothing |
| EmuCrash.WindowLosesEverything | module/src/utils/emueeprom/emueeprom.cpp:71-121 | With no page valid and one receiving, a restart formats: the map is empty |
| EmuCrash.EveryTransferHasAWindow | module/src/utils/emueeprom/emueeprom.cpp:735-745 | Every transfer from a steady store passes through contents from which a restart loses every value, whatever is stored: the window between the erase of the old page and the Valid record cannot be avoided |
| EmuCrash.TransferSteadyCut | module/src/utils/emueeprom/emueeprom.cpp:676-757 | Every flash operation of a transfer leaves contents from which the whole map is rebuilt, or is in the window |
| EmuCrash.RecoverReceiving | module/src/utils/emueeprom/emueeprom.cpp:150-177 | A transfer that was cut before the old page was erased is redone at start-up, from the old page |
| EmuCrash.RecoverErased | module/src/utils/emueeprom/emueeprom.cpp:134-145 | A transfer cut just after its Valid record leaves an erased page, which start-up completes to a formatted one |
| EmuRuns.RunRefines | module/src/utils/emueeprom/emueeprom.cpp:281-644 | Refinement: in every state reachable by writes, cache-only writes, flushes, transfers, reads, status queries, formats, restarts, factory snapshots and restores, the RAM mirror is the replay of the active log and the staged block overlaid with the cache-only writes; mirror and factory page stand for the two maps those calls mean, the live one and the saved one; every program operation of the run is aligned and hits an erased block |
| EmuRuns.ReadAfterRun | module/src/utils/emueeprom/emueeprom.cpp:399-456 | In every reachable state, through the factory calls too, a read returns the value the calls leave at the address, NoVariable for an address not in the map, and ReadError out of range |
| EmuRuns.StepSound | module/src/utils/emueeprom/emueeprom.cpp:281-644 | Each single call keeps the invariant, means what it should for the live and the saved map, programs erased blocks only, and leaves the factory page alone unless it formats it or takes a snapshot |
| EmuRuns.SaveStep | module/src/utils/emueeprom/emueeprom.cpp:281-328 | A snapshot saves the live map, cache-only writes included |
| EmuRuns.RestoreStep | module/src/utils/emueeprom/emueeprom.cpp:330-397 | A restore of a page with an erased block left makes the saved map the live one; of a page that is not valid it changes nothing |
| EmuRuns.RunTracks | module/src/utils/emueeprom/emueeprom.cpp:458-644 | Over any run of plain writes and flushes, log plus staged block replay to exactly the accepted writes, of which the durable ones are a prefix |
| EmuRuns.RestartStep | module/src/utils/emueeprom/emueeprom.cpp:27-233 | A restart from a reachable state keeps exactly what is durable |
| EmuSteady.TransferSteady | module/src/utils/emueeprom/emueeprom.cpp:676-757 | A transfer from any steady state is never PageFull: it swaps the page roles, keeps the map, leaves 3 + ceil(live / E) written blocks, which is at most the page, and makes every cached value durable |
| EmuSteady.WriteSteady | module/src/utils/emueeprom/emueeprom.cpp:458-478 | A write in range is Ok exactly when the active page has a free slot or ceil(live / E) + 4 blocks fit the page, PageFull otherwise; the mirror takes the value in the first case only |
| EmuSteady.WriteRefused | module/src/utils/emueeprom/emueeprom.cpp:458-478 | The other side of that condition: with every block needed for live values, a write is refused after a transfer that changes nothing |
| EmuSteady.CacheOnlySteady | module/src/utils/emueeprom/emueeprom.cpp:538-543 | A cache-only write changes the mirror and its dirty flag and nothing else |
| EmuSteady.WriteOutOfRange | module/src/utils/emueeprom/emueeprom.cpp:460-463 | Addresses out of range are refused without effect |
| EmuSteady.FlushSteady | module/src/utils/emueeprom/emueeprom.cpp:1091-1102 | After a flush everything in the mirror is durable, cache-only writes included, and nothing is staged |
| EmuTransfer.CopyFacts | module/src/utils/emueeprom/emueeprom.cpp:676-733 | The first half of a transfer copies exactly the live values below the source log, behind the Receiving record, into a page that had only its Formatted record |
| EmuTransfer.DumpFacts | module/src/utils/emueeprom/emueeprom.cpp:715-728 | Copying the mirror address by address writes each live value once and never runs out of room |
| EmuTransfer.SwapFacts | module/src/utils/emueeprom/emueeprom.cpp:730-757 | The second half erases the source, promotes the target and formats the source, leaving a steady store |
| EmuTransfer.BlocksForUnique | module/include/zlibs/utils/emueeprom/emueeprom_common.h:75-89 | The number of blocks for n entries is the least that holds them |
| EmuAppend.AppendEntry | module/src/utils/emueeprom/emueeprom.cpp:531-644 | Appending one entry extends what the log and staged block replay to by that entry; flash is touched only when the staged block fills, by one program of the next erased block |
| EmuAppend.FlushAppending | module/src/utils/emueeprom/emueeprom.cpp:982-1007 | Writing out the staged block moves its entries into the log unchanged and closes the block |
| EmuAppend.StampedFacts | module/src/utils/emueeprom/emueeprom.cpp:898-936 | A status record takes a block of its own and becomes the last status of the page, leaving all values as they were |
| EmuAppend.CacheFacts | module/src/utils/emueeprom/emueeprom.cpp:1018-1089 | Loading a page gives the mirror its log replays to |
| EmuAppend.LocatedFacts | module/src/utils/emueeprom/emueeprom.cpp:552-580 | A cached next offset that is not zero is the end of the log or the next free slot of the staged block |
| EmuAppend.AppendToFull | module/src/utils/emueeprom/emueeprom.cpp:531-593 | On a page without a free slot an append is PageFull and changes at most the cached offset |
| EmuLog.LoadIsReplay | module/src/utils/emueeprom/emueeprom.cpp:1032-1088 | Loading succeeds exactly on logs whose entries are in range, and then is the replay of every entry in order |
| EmuLog.LogEnd | module/src/utils/emueeprom/emueeprom.cpp:646-674 | The first erased block of a written prefix with an erased suffix is where the prefix ends |
| EmuLog.ExtendLog | module/src/utils/emueeprom/emueeprom.cpp:982-1007 | Programming the block at the end of the log keeps it a written prefix and an erased suffix, and replays on |
| EmuRead.ScanAgreesWithReplay | module/src/utils/emueeprom/emueeprom.cpp:432-453 | On logs of values other than 0xFFFF the backward scan for an address finds exactly what the replay leaves there |
| EmuRead.ReadSteady | module/src/utils/emueeprom/emueeprom.cpp:399-456 | A read in a steady state answers from the mirror, never differently from the log, and changes nothing |
| EmuAbsent.ErasedValueBringsBackTheOld | module/src/utils/emueeprom/emueeprom.cpp:399-478 | Why the value 0xFFFF is excluded, for every write of it, to the log or to the mirror, through a transfer or not: the next read says NoVariable if and only if the entry was not programmed and the address was not durable; otherwise ReadOk, with 0xFFFF if the entry completed its block and else with the durable value; a restart answers the same |
| EmuAbsent.ErasedWhileStaging | module/src/utils/emueeprom/emueeprom.cpp:538-593 | While the entry stays in the staged block, reads and restarts answer from what is durable, whatever was staged before |
| EmuAbsent.ErasedAndProgrammed | module/src/utils/emueeprom/emueeprom.cpp:595-644 | When the entry completes its block, reads and restarts find the entry itself and answer ReadOk with 0xFFFF |
| EmuAbsent.ErasedInMirror | module/src/utils/emueeprom/emueeprom.cpp:538-543 | A cache-only write of 0xFFFF drops a value from the mirror, and reads and restarts answer from what is durable |
| EmuRead.QuerySteady | module/src/utils/emueeprom/emueeprom.cpp:769-841 | A status query reports the last status record of the page, whether it starts at the cached offset or at the page end, and keeps the invariant |
| EmuRead.StatusBeforeEnd | module/src/utils/emueeprom/emueeprom.cpp:794-840 | Starting the status scan anywhere in the erased suffix gives the last status of the log |
| EmuRestart.RepairArbitrary | module/src/utils/emueeprom/emueeprom.cpp:27-233 | For arbitrary flash contents, start-up of a fresh driver ends with exactly one runtime page Valid and the other Formatted, leaves the factory page alone, and programs erased blocks only |
| EmuRestart.FormatFacts | module/src/utils/emueeprom/emueeprom.cpp:235-279 | Formatting leaves an empty map, one valid and one formatted page, from any state |
| EmuRestart.ResumeFacts | module/src/utils/emueeprom/emueeprom.cpp:83-112 | Completing an interrupted transfer at start-up |
| EmuRestart.LoadFacts | module/src/utils/emueeprom/emueeprom.cpp:220-230 | A valid page that cannot be loaded is reformatted |
| EmuRuns.FactoryRoundTrip | module/src/utils/emueeprom/emueeprom.cpp:281-397 | A snapshot, then any run of storable calls, restores among them, that leaves the factory page alone, then a restore: it succeeds exactly when the snapshot left an erased block, and then the map is the one at the snapshot; the whole of it is write-once |
| EmuFactory.StoreFacts | module/src/utils/emueeprom/emueeprom.cpp:281-328 | The factory page becomes a block-for-block copy of the active page, which carries the whole map |
| EmuFactory.RestoreFacts | module/src/utils/emueeprom/emueeprom.cpp:330-397 | A restore rebuilds both runtime pages from the factory page, exactly when it has an erased block left for the Valid record, and is write-once |
| EmuFactory.RestoreIsWriteOnce | module/src/utils/emueeprom/emueeprom.cpp:330-397 | A restore programs erased blocks only, with something, whatever the factory page holds |
| EmuFactory.CopyFormula | module/src/utils/emueeprom/emueeprom.cpp:302-323 | For any contents of the source page, the copy is everything before its first erased block, one program operation a block |
| EmuFactoryCuts.SnapshotCutWhileCopying | module/src/utils/emueeprom/emueeprom.cpp:281-328 | Once a snapshot has flushed, a cut at any of its flash operations leaves the whole map; the factory page is the old one, or holds the first blocks of the active page |
| EmuFactoryCuts.SnapshotCutWhileFlushing | module/src/utils/emueeprom/emueeprom.cpp:281-286 | Until then a cut of it is a cut of a flush: the durable or the whole map, or the window of its transfer |
| EmuFactoryCuts.CutSnapshotRestores | module/src/utils/emueeprom/emueeprom.cpp:330-397 | What a later restore makes of a snapshot cut after n blocks: the part of the map they replay to if their last status record is Valid, else the restore refuses and changes nothing |
| EmuFactoryCuts.ValidFirst | module/src/utils/emueeprom/emueeprom.cpp:269-277 | On a page that was formatted and never the target of a transfer every block prefix ends in the Valid record, so that every cut of its snapshot can be restored as a partial map |
| EmuFactoryCuts.RestoreCuts | module/src/utils/emueeprom/emueeprom.cpp:330-397 | What a start-up finds after a restore has been cut at any of its flash operations: the old map before the first erasure, and before the second if page 2 was active; then nothing; then the part of the snapshot copied so far, once it ends in a Valid record; the whole snapshot as soon as the copy is complete |
| EmuFactoryCuts.FullSnapshotNeedsRestart | module/src/utils/emueeprom/emueeprom.cpp:388-391 | Restoring a snapshot without an erased block fails and leaves no page valid in RAM, and the next start-up finds the whole snapshot |
| EmuFactory.CopyReproduces | module/src/utils/emueeprom/emueeprom.cpp:302-323 | Copying block by block reproduces the page and programs erased blocks only |
| EmuBytes.EntryRoundTrip | module/include/zlibs/utils/emueeprom/emueeprom_common.h:195-212 | An entry written as four little-endian bytes reads back, and only those bytes write it |
| EmuBytes.EntryOnFlash | module/include/zlibs/utils/emueeprom/emueeprom_common.h:195-212 | An entry on flash is its value and then its address, low byte first |
| EmuBytes.StatusOnFlash | module/include/zlibs/utils/emueeprom/emueeprom_common.h:110-116 | The status records byte by byte, and no other four bytes are one |
| EmuBytes.SerializeValue | module/include/zlibs/utils/emueeprom/emueeprom_common.h:158-165 | Writing a 16-bit value byte by byte touches two bytes of the span |
| EmuBytes.DeserializeValue | module/include/zlibs/utils/emueeprom/emueeprom_common.h:176-187 | Gathering the bytes again gives the value |
| EmuBytes.ProgrammedImage | module/src/utils/emueeprom/emueeprom.cpp:982-1007 | Programming one aligned block of bytes changes exactly that block of the page as entries |
| EmuDriver.GeometryIsValid | module/include/zlibs/utils/emueeprom/emueeprom.h:32-51 | The static asserts on page size, write block and address count imply the capacity 3 + ceil(addresses / E) <= P / W that transfers rely on |
| EmuDriver.AddressCountIsLargest | module/include/zlibs/utils/emueeprom/emueeprom_common.h:75-89 | The address count is the largest up to 0xFFFF that leaves three write blocks to spare |
| EmuHwa.Hwa.ErasePage | module/src/utils/emueeprom/emueeprom.cpp:239-242 | Erasing a page makes all its bytes 0xFF |
| EmuHwa.Hwa.Write | module/src/utils/emueeprom/emueeprom.cpp:989-994 | Writing puts one aligned block of bytes in place |
| EmuHwa.Hwa.Read | module/src/utils/emueeprom/emueeprom.cpp:654-660 | Reading returns the bytes of the page |
| EmuDriver.EmuEeprom.constructor | module/include/zlibs/utils/emueeprom/emueeprom.h:60-65 | A driver over flash of the given geometry starts with everything unknown |
| EmuDriver.EmuEeprom.Init | module/src/utils/emueeprom/emueeprom.cpp:27-233 | Over byte arrays, refines the value-level operation: start-up over byte arrays does what the value-level start-up does |
| EmuDriver.EmuEeprom.RepairPages | module/src/utils/emueeprom/emueeprom.cpp:55-218 | Over byte arrays, refines the value-level operation: the decision table over the two page statuses |
| EmuDriver.EmuEeprom.ResumeTransfer | module/src/utils/emueeprom/emueeprom.cpp:92-111 | Over byte arrays, refines the value-level operation: completing a transfer at start-up |
| EmuDriver.EmuEeprom.LoadOrFormat | module/src/utils/emueeprom/emueeprom.cpp:220-230 | Over byte arrays, refines the value-level operation: loading the valid page, or formatting |
| EmuDriver.EmuEeprom.Format | module/src/utils/emueeprom/emueeprom.cpp:235-279 | Over byte arrays, refines the value-level operation: formatting, with or without the factory page |
| EmuDriver.EmuEeprom.StoreToFactory | module/src/utils/emueeprom/emueeprom.cpp:281-328 | Over byte arrays, refines the value-level operation: taking the snapshot |
| EmuDriver.EmuEeprom.RestoreFromFactory | module/src/utils/emueeprom/emueeprom.cpp:330-397 | Over byte arrays, refines the value-level operation: restoring it |
| EmuDriver.EmuEeprom.Read | module/src/utils/emueeprom/emueeprom.cpp:399-456 | Over byte arrays, refines the value-level operation: reading an address |
| EmuDriver.EmuEeprom.ScanForAddress | module/src/utils/emueeprom/emueeprom.cpp:432-453 | Over byte arrays, refines the value-level operation: the backward scan over byte offsets finds the last entry of the address |
| EmuDriver.EmuEeprom.Write | module/src/utils/emueeprom/emueeprom.cpp:458-478 | Over byte arrays, refines the value-level operation: writing, with the transfer and second attempt on a full page |
| EmuDriver.EmuEeprom.FindValidPage | module/src/utils/emueeprom/emueeprom.cpp:480-529 | The page for reading is the valid one, the first if both are; the page for writing is the receiving one while a transfer is under way |
| EmuDriver.EmuEeprom.WriteInternal | module/src/utils/emueeprom/emueeprom.cpp:531-593 | Over byte arrays, refines the value-level operation: one attempt at a write |
| EmuDriver.EmuEeprom.WriteEntry | module/src/utils/emueeprom/emueeprom.cpp:595-644 | Over byte arrays, refines the value-level operation: staging one entry, and writing the block out when it is full |
| EmuDriver.EmuEeprom.FindNextFreeOffset | module/src/utils/emueeprom/emueeprom.cpp:646-674 | Over byte arrays, refines the value-level operation: the first erased block of a page |
| EmuDriver.EmuEeprom.ScanForErased | module/src/utils/emueeprom/emueeprom.cpp:650-673 | Over byte arrays, refines the value-level operation: the scan over read buffers finds the offset of the first erased block, or the page end |
| EmuDriver.EmuEeprom.PageTransfer | module/src/utils/emueeprom/emueeprom.cpp:676-757 | Over byte arrays, refines the value-level operation: the transfer |
| EmuDriver.EmuEeprom.DumpMirror | module/src/utils/emueeprom/emueeprom.cpp:715-728 | Over byte arrays, refines the value-level operation: its loop over the mirror |
| EmuDriver.EmuEeprom.PageStatusOf | module/src/utils/emueeprom/emueeprom.cpp:759-767 | Over byte arrays, refines the value-level operation: a page status, refreshed |
| EmuDriver.EmuEeprom.RefreshPageStatus | module/src/utils/emueeprom/emueeprom.cpp:769-841 | Over byte arrays, refines the value-level operation: the status scan |
| EmuDriver.EmuEeprom.LastStatusUpTo | module/src/utils/emueeprom/emueeprom.cpp:794-840 | Over byte arrays, refines the value-level operation: its loop over read buffers, backwards, ends with the last status record before the start |
| EmuDriver.EmuEeprom.RefreshNextWriteOffset | module/src/utils/emueeprom/emueeprom.cpp:853-883 | Over byte arrays, refines the value-level operation: the cached append offset, recomputed |
| EmuDriver.EmuEeprom.WritePageStatus | module/src/utils/emueeprom/emueeprom.cpp:898-936 | Over byte arrays, refines the value-level operation: appending a status record |
| EmuDriver.EmuEeprom.ReadEntry | module/src/utils/emueeprom/emueeprom.cpp:961-980 | Over byte arrays, refines the value-level operation: one entry at a byte offset |
| EmuDriver.EmuEeprom.FlushWriteBlock | module/src/utils/emueeprom/emueeprom.cpp:982-1007 | Over byte arrays, refines the value-level operation: writing out the staged block |
| EmuDriver.EmuEeprom.ClearWriteBlock | module/src/utils/emueeprom/emueeprom.cpp:1009-1016 | Over byte arrays, refines the value-level operation: emptying it |
| EmuDriver.EmuEeprom.Cache | module/src/utils/emueeprom/emueeprom.cpp:1018-1089 | Over byte arrays, refines the value-level operation: rebuilding the mirror from the active page |
| EmuDriver.EmuEeprom.LoadPage | module/src/utils/emueeprom/emueeprom.cpp:1032-1088 | Over byte arrays, refines the value-level operation: its loop over the blocks of the page |
| EmuDriver.EmuEeprom.Flush | module/src/utils/emueeprom/emueeprom.cpp:1091-1102 | Over byte arrays, refines the value-level operation: flushing |
| EmuPowerUp.PowerUp | module/include/zlibs/utils/emueeprom/emueeprom.h:60-75 | A driver constructed and initialised over flash with any contents at all has exactly one valid page; if the contents carry a mirror, it is steady with that mirror |
| MidiCodec.StreamRoundTrip | module/include/zlibs/utils/midi/midi_common.h:690-1071 | Printing any canonical stream of one group and parsing the bytes, from any parser state, gives exactly the stream; dropping any choice of repeated channel status bytes, with real-time messages in between, changes nothing |
| MidiCodec.ParseStream | module/include/zlibs/utils/midi/midi_common.h:868-1019 | The parsing half, for streams that go on from a known running status |
| MidiCodec.PrintStream | module/include/zlibs/utils/midi/midi_common.h:690-780 | Printing a canonical packet stream gives its messages as they appear on a MIDI 1 wire |
| MidiCodec.EncodersAgree | module/include/zlibs/utils/midi/midi_common.h:794-1019 | For every 7-bit payload, the packets cut six bytes at a time are the ones the parser emits on F0 payload F7 from any state, and printing them gives that frame back |
| MidiCodec.ParsePayload | module/include/zlibs/utils/midi/midi_common.h:980-1019 | Inside SysEx, for any buffered bytes and any rest, chunking is the chain of the whole |
| MidiCodec.ParseSent | module/include/zlibs/utils/midi/midi_common.h:868-968 | One message, with or without its status byte when that is the running one |
| MidiCodec.AfterSingleByte | module/include/zlibs/utils/midi/midi_common.h:904-916 | A single-byte system message comes out at once from any state, and running status survives it exactly when no message was under way |
| MidiRealTime.RealTimeInsideMessageLosesIt | module/include/zlibs/utils/midi/midi_common.h:886-993 | A real-time byte after the first k bytes of any message, from any parser state: the parser gives the message with the real-time packet before or after it if and only if k is 0 or all of the message; anywhere else the message is lost, and what comes out is the SysEx packets that had gone out and then the real-time packet |
| MidiRealTime.RealTimeUnderRunningStatus | module/include/zlibs/utils/midi/midi_common.h:886-957 | The same for a channel message sent without its status byte; running status is lost with it |
| MidiRealTime.InterruptedStream | module/include/zlibs/utils/midi/midi_common.h:868-1019 | In a stream with all its status bytes, an interruption costs the interrupted message and no other |
| MidiRealTime.PartialPayload | module/include/zlibs/utils/midi/midi_common.h:980-1005 | Of a SysEx payload that has not ended, all full packets but the last have gone out |
| MidiCodec.PrintChain | module/include/zlibs/utils/midi/midi_common.h:741-775 | A chain of SysEx packets prints to its payload between F0 and F7 |
| MidiCodec.ParseAppend | module/include/zlibs/utils/midi/midi_common.h:868-968 | Parsing is compositional: bytes may arrive in any portions |
| MidiUmp.SysExPacketFields | module/include/zlibs/utils/midi/midi_common.h:440-574 | A SysEx7 packet gives back its group, status, size and every payload byte; `MidiWords.SysExWords` says which bits they are |
| MidiUmp.PackedLanes | module/include/zlibs/utils/midi/midi_common.h:544-574 | Or-ing bytes into their lanes one by one leaves every other lane and the header alone |
| MidiUmp.ChannelVoiceFields | module/include/zlibs/utils/midi/midi_common.h:617-630 | The fields built into a channel voice packet read back |
| MidiUmp.SystemFields | module/include/zlibs/utils/midi/midi_common.h:641-652 | The fields built into a system packet read back |
| MidiWords.SysExWords | module/include/zlibs/utils/midi/midi_common.h:440-574 | The two words of a SysEx7 packet, bit by bit: 3, group, status 0 to 3 and size in the top four digits, payload bytes 0 and 1 below them, bytes 2 to 5 from the top of the second word down, zeros for missing bytes and in the other words |
| MidiWords.LaneWords | module/include/zlibs/utils/midi/midi_common.h:566-574 | Reading a payload byte, by its bits in either word |
| MidiWords.FrameWords | module/include/zlibs/utils/midi/midi_common.h:794-837 | For every payload, group and parser state: the packets parsed from F0, the payload and F7, and those the packetiser makes, are ceil(n/6) (one for n = 0), and packet i has exactly payload bytes 6i to 6i+5, their number and its status in those bits |
| MidiWords.VoiceWords | module/include/zlibs/utils/midi/midi_common.h:617-630 | The word of a channel message: 2, group, status byte, two data bytes |
| MidiWords.SystemWords | module/include/zlibs/utils/midi/midi_common.h:641-652 | The word of a system message: 1, group, status byte, two data bytes |
| MidiWords.VoiceParsed | module/include/zlibs/utils/midi/midi_common.h:886-970 | A channel message on the wire comes out of the parser, whatever it was doing, as one packet with exactly these bits |
| MidiWords.SystemParsed | module/include/zlibs/utils/midi/midi_common.h:886-970 | A system message of one to three bytes on the wire comes out of the parser, whatever it was doing, as one packet with exactly these bits |
| MidiWords.VoicePrinted | module/include/zlibs/utils/midi/midi_common.h:709-731 | A word with these bits prints to status and two data bytes, or one for statuses C0 to DF |
| MidiWords.SizeByStatus | module/include/zlibs/utils/midi/midi_common.h:388-429 | How many bytes a message has, and of which kind it is, by the range its status byte is in |
| MidiWords.UndefinedResets | module/include/zlibs/utils/midi/midi_common.h:868-970 | A status byte that begins no message gives nothing and puts the parser back to its beginning, whatever it was doing |
| MidiWords.StrayDataResets | module/include/zlibs/utils/midi/midi_common.h:868-970 | So does a data byte without a running status |
| MidiStream.Midi1ByteToUmpParser.constructor | module/include/zlibs/utils/midi/midi_common.h:842-978 | A new parser |
| MidiStream.Midi1ByteToUmpParser.Reset | module/include/zlibs/utils/midi/midi_common.h:848-858 | Resetting gives the state of a new parser |
| MidiStream.Midi1ByteToUmpParser.Parse | module/include/zlibs/utils/midi/midi_common.h:868-968 | The parser object does what the parsing function says, byte by byte |
| MidiStream.Midi1ByteToUmpParser.ParseIdle | module/include/zlibs/utils/midi/midi_common.h:886-951 | Refines the parsing function: its branch at a message boundary |
| MidiStream.Midi1ByteToUmpParser.ParseSysExByte | module/include/zlibs/utils/midi/midi_common.h:980-1005 | Refines the parsing function: its branch inside SysEx |
| MidiStream.Midi1ByteToUmpParser.FlushSysEx | module/include/zlibs/utils/midi/midi_common.h:1007-1019 | Refines the parsing function: the loop that packs the buffered bytes |
| MidiStream.Midi1ByteToUmpParser.CompleteMessage | module/include/zlibs/utils/midi/midi_common.h:1021-1038 | Refines the parsing function: emitting a completed message |
| MidiStream.Midi1ByteToUmpParser.ReadUmp | module/include/zlibs/utils/midi/midi_common.h:1053-1071 | Reading bytes until a packet is complete: exactly the bytes it took are consumed, and nothing was emitted before |
| MidiStream.WriteUmpAsMidi1Bytes | module/include/zlibs/utils/midi/midi_common.h:690-780 | The printer writes the bytes of a packet up to the first that the byte writer refuses, and reports whether it took them all; a packet it refuses itself it writes nothing of |
| MidiStream.WriteSysEx7Payload | module/include/zlibs/utils/midi/midi_common.h:794-837 | The packetiser gives the chain of every non-empty payload, up to the first packet that the writer refuses; on an empty payload it goes on with empty packets until the writer refuses one |
| MidiStream.PackChunk | module/include/zlibs/utils/midi/midi_common.h:818-826 | One packet of it |
| MidiBle.FramingRoundTrip | module/src/utils/midi/transport/transport_ble.cpp:46-178 | For every packet capacity of at least three and every well-formed UMP stream, the bytes read from the packets written are exactly the MIDI bytes of the stream, whatever the timestamps |
| MidiBle.PacketIntactIffClean | module/src/utils/midi/transport/transport_ble.cpp:134-174 | A packet is read back intact exactly when no status byte follows, within it, a byte after which no SysEx is open |
| MidiBle.PrintsClean | module/src/utils/midi/transport/transport_ble.cpp:82-97 | Every packet but an End with payload outside an open SysEx prints to bytes that survive any cut |
| MidiBle.UnopenedEndIsDamaged | module/src/utils/midi/transport/transport_ble.cpp:55-70 | For every capacity of at least three, an End packet with n payload bytes, sent while no SysEx is open, is read back as written if and only if n is a multiple of the capacity less two, so that the end byte travels alone |
| MidiBle.CutReadBack | module/src/utils/midi/transport/transport_ble.cpp:55-80 | Clean bytes come back whole however many packets they were cut into |
| MidiBle.HeaderCarriesTime | module/src/utils/midi/transport/transport_ble.cpp:46-53 | The first header byte is 0x80 plus the six high bits of the 13-bit time, the second 0x80 plus its seven low bits |
| MidiBle.StampsStripped | module/src/utils/midi/transport/transport_ble.cpp:134-174 | A packet filled by any sender with whole messages, each behind a timestamp: exactly the messages are read |
| MidiBle.Continuation | module/src/utils/midi/transport/transport_ble.cpp:134-174 | A packet that goes on with a SysEx, without a timestamp behind its header, is read from there |
| MidiBleLink.LinkRoundTrip | module/src/utils/midi/transport/transport_ble.cpp:82-178 | What one transport writes for a canonical stream of any group, another in any state between packets reads as the same messages on the receiving group |
| MidiBleLink.StreamWellFormed | module/src/utils/midi/transport/transport_ble.cpp:82-97 | Every canonical stream is well-formed |
| MidiTransportBle.Transport.Init | module/src/utils/midi/transport/transport_ble.cpp:30-39 | Starting forgets a half-read packet and an open SysEx, whether or not the backend starts, and reports the latter |
| MidiTransportBle.Transport.StartPacket | module/src/utils/midi/transport/transport_ble.cpp:46-53 | A packet begins with the two header bytes of the time given, high bits first, and holds nothing else |
| MidiTransportBle.Transport.WriteMidiByte | module/src/utils/midi/transport/transport_ble.cpp:55-70 | A full packet is sent before the next byte is taken; if the backend refuses it, nothing changes |
| MidiTransportBle.Transport.FlushPacket | module/src/utils/midi/transport/transport_ble.cpp:72-80 | Nothing but a header is never sent; a refusal of the backend is reported |
| MidiTransportBle.Transport.Write | module/src/utils/midi/transport/transport_ble.cpp:82-97 | A packet goes out as its printed bytes cut at the capacity, as many pieces as the backend takes, each behind the header of the time when it was begun; success means it printed and all of them were taken |
| MidiTransportBle.Transport.ReadMidiByte | module/src/utils/midi/transport/transport_ble.cpp:109-178 | The next byte returned is the first of those still to be read, and none only when there are none |
| MidiTransportBle.Transport.ScanPacket | module/src/utils/midi/transport/transport_ble.cpp:134-174 | The inner loop, through the packet at hand |
| MidiTransportBle.Transport.Read | module/src/utils/midi/transport/transport_ble.cpp:99-107 | The next packet returned is the first of those the arrived bytes make |
| RingBuffer.FirstInFirstOut | module/include/zlibs/utils/misc/ring_buffer.h:59-140 | Over every interleaving of the single loads, buffer accesses and stores of one inserter and one remover, the removed values are a prefix of the accepted ones and no more than the capacity is held |
| RingBuffer.NoConflict | module/include/zlibs/utils/misc/ring_buffer.h:59-135 | The inserter never writes the slot the remover is about to read, nor one with an untaken entry |
| RingBuffer.RefusedIffFull | module/include/zlibs/utils/misc/ring_buffer.h:59-76 | An insert is refused exactly when the buffer is full at the moment it looks at the tail |
| RingBuffer.ReadsTheOldest | module/include/zlibs/utils/misc/ring_buffer.h:94-135 | A remove or peek finds nothing exactly when all that was accepted before its head load is taken, and otherwise reads the oldest entry |
| RingBuffer.RunKeeps | module/include/zlibs/utils/misc/ring_buffer.h:59-140 | The invariant behind these, over every run, including resets by the remover |
| RingBuffer.SizeIsDifference | module/include/zlibs/utils/misc/ring_buffer.h:36-47 | The wrap-around difference is the number of entries between the two loads |
| RingBuffer.Ring.Insert | module/include/zlibs/utils/misc/ring_buffer.h:59-92 | Used by one thread: appends, or on a full buffer refuses or drops the oldest |
| RingBuffer.Ring.Peek | module/include/zlibs/utils/misc/ring_buffer.h:94-112 | Returns the oldest entry |
| RingBuffer.Ring.Remove | module/include/zlibs/utils/misc/ring_buffer.h:114-135 | Takes it out |
| RingBuffer.Ring.Reset | module/include/zlibs/utils/misc/ring_buffer.h:137-140 | Empties the buffer |
| RingBuffer.Ring.Size | module/include/zlibs/utils/misc/ring_buffer.h:36-47 | The number of entries |
| RingBuffer.Ring.IsFull | module/include/zlibs/utils/misc/ring_buffer.h:54-57 | Full is at capacity |
| RingBuffer.Ring.IsEmpty | module/include/zlibs/utils/misc/ring_buffer.h:49-52 | Empty is no entries |
| Signaling.DrainQuiesces | module/src/utils/signaling/signaling.cpp:97-164 | Over every interleaving of any number of threads and the dispatcher, without a stop: when a drain returns true, every job accepted before its last generation sample has run, in order |
| Signaling.RunsInOrder | module/src/utils/signaling/signaling.cpp:27-49 | Jobs run once each, in the order in which they were accepted |
| Signaling.NodesConserved | module/src/utils/signaling/signaling.cpp:206-221 | Free, held, queued and running nodes are together exactly the pool |
| Signaling.SampleIsExact | module/src/utils/signaling/signaling.cpp:79-123 | A generation sample under the lock is the number of jobs accepted so far |
| Signaling.SyncHasRun | module/src/utils/signaling/signaling.cpp:166-204 | When a synchronous dispatch is woken, its own job and all accepted before it have run |
| Signaling.RunKeeps | module/src/utils/signaling/signaling.cpp:79-164 | The invariant of order, semaphores and lock behind these |
| Signaling.PutKeeps | module/src/utils/signaling/signaling.cpp:79-164 | Putting a node on the FIFO, for a publish, a synchronous dispatch or a barrier |
| Signaling.InvokeKeeps | module/src/utils/signaling/signaling.cpp:32-48 | The dispatcher running a node keeps the invariant; that it gives the semaphore is `SignalingLiveness.InvokeGives` |
| Signaling.StepConserves | module/include/zlibs/utils/signaling/signaling.h:577-630 | Each action moves at most one node, including allocation and the enqueue of a publish |
| SignalingLiveness.NobodyForgotten | module/include/zlibs/utils/signaling/signaling.h:495-552 | No lost wake-up, over every interleaving: the semaphore of every sleeping thread has been given, or an entry that is queued or being run will give it; with an empty queue and an idle dispatcher every sleeping thread can go on |
| SignalingLiveness.DispatcherCatchesUp | module/src/utils/signaling/signaling.cpp:32-48 | From every reachable state the dispatcher by itself, in at most three actions for each entry, empties its queue; then every accepted job has run, in order, and every sleeping thread can go on |
| SignalingLiveness.DrainCompletes | module/src/utils/signaling/signaling.cpp:97-123 | From every reachable state in which nobody holds the lock, a sleeping drain is brought to its comparison by the dispatcher and four actions of its own, with all accepted jobs done; its second sample counts all of them |
| SignalingLiveness.UndisturbedDrain | module/src/utils/signaling/signaling.cpp:97-123 | A drain during which no publish and no synchronous dispatch is counted finds its two samples equal, with every job it has seen done |
| SignalingLiveness.SyncCompletes | module/src/utils/signaling/signaling.cpp:166-204 | From every reachable state a waiting synchronous dispatch returns after the dispatcher and one action of its own |
| SignalingLiveness.PublishCompletes | module/include/zlibs/utils/signaling/signaling.h:577-630 | A publish by itself puts its value behind all that is queued, counts it once and returns, with the lock free |
| SignalingLiveness.SyncQueues | module/src/utils/signaling/signaling.cpp:166-204 | A synchronous dispatch does the same with a semaphore of its own, and waits |
| SignalingLiveness.LockIsReleased | module/src/utils/signaling/signaling.cpp:79-123 | From every reachable state the holder of the lock releases it in at most three actions of its own |
| SignalingLiveness.StepWakeable | module/include/zlibs/utils/signaling/signaling.h:495-552 | Every action keeps the invariant that each waiting semaphore is given or queued |
| SignalingLiveness.InvokeGives | module/include/zlibs/utils/signaling/signaling.h:495-552 | Running a node gives the semaphore of its entry and no other |
| Calendar.DateTime.NormalizeDateTime | module/include/zlibs/utils/misc/datetime.h:249-375 | For every input: valid fields, and the absolute second max(0, input) after the year and month have been folded, which leaves years from 0 and months 1 to 12 alone |
| Calendar.DateTime.CarryTime | module/include/zlibs/utils/misc/datetime.h:261-295 | The six carry loops keep the total and bring the time into range |
| Calendar.DateTime.CarryDays | module/include/zlibs/utils/misc/datetime.h:324-342 | The two day loops keep the total, or stop at the minimum exactly when it is negative |
| Calendar.DateTime.FixMonth | module/include/zlibs/utils/misc/datetime.h:297-315 | Folding one month step |
| Calendar.DateTime.ClampToMinimum | module/include/zlibs/utils/misc/datetime.h:251-259 | The minimum date and time |
| Calendar.NormalFormUnique | module/include/zlibs/utils/misc/datetime.h:174-240 | Two valid values of the same second are equal, so normalisation has one possible result |
| Calendar.WeekdayIffFromMarch | module/include/zlibs/utils/misc/datetime.h:344-374 | The computed weekday is the day number modulo seven with Monday as 1 exactly for dates from 0000-03-01 on; in the two months before, division truncated towards zero makes it wrong |
| Calendar.KnownWeekdays | module/include/zlibs/utils/misc/datetime.h:344-374 | Two dates by name, and the length of three Februaries |
| Calendar.ClosedYears | module/include/zlibs/utils/misc/datetime.h:59-89 | Counting the days of the years one by one agrees with the Gregorian closed form |
| Calendar.NextMonth | module/include/zlibs/utils/misc/datetime.h:99-127 | A day counted past the end of a month is a day of the next month |
| Calendar.FoldCarriesOneMonth | module/include/zlibs/utils/misc/datetime.h:251-315 | An out-of-range month is carried arithmetically if and only if it is off by no more than one, in year 0 not below January; in a negative year only January of year 0 with all other fields least, which is the minimum either way |
| Calendar.SecondsToTime | module/include/zlibs/utils/misc/datetime.h:156-165 | The parts add up to the seconds again, also for negative ones |
| LessDbCells.UpdatedValue | module/src/utils/lessdb/lessdb.cpp:183-280 | For every layout that fits, a parameter reads back what it was set to, masked to its width |
| LessDbCells.UpdatedOthers | module/src/utils/lessdb/lessdb.cpp:183-280 | For every layout that fits, setting one parameter leaves every other parameter of the layout reading as before |
| LessDbLayout.SectionsDisjoint | module/include/zlibs/utils/lessdb/lessdb_common.h:319-346 | Sections of a layout built by the two builders share no byte |
| LessDbLayout.SectionWithin | module/include/zlibs/utils/lessdb/lessdb.h:181-189 | Every section of a layout lies within the size computed for the layout |
| LessDbLayout.MakeBlock | module/include/zlibs/utils/lessdb/lessdb_common.h:319-332 | Each section is stamped with the sum of the sizes before it |
| LessDbLayout.MakeLayout | module/include/zlibs/utils/lessdb/lessdb_common.h:335-346 | Each block is stamped with the sum of the sizes of the blocks before it |
| LessDbLayout.BlockByteSize | module/include/zlibs/utils/lessdb/lessdb_common.h:260-270 | The size of a block is the sum of its sections |
| LessDbLayout.CellsApart | module/include/zlibs/utils/lessdb/lessdb_common.h:68-87 | Accesses of a section coincide only for parameters packed together, and are disjoint otherwise |
| LessDbLayout.LastCellEnds | module/include/zlibs/utils/lessdb/lessdb_common.h:68-87 | The size of a section is the least that holds it: its last access ends at its end |
| LessDbLayout.NothingFree | module/include/zlibs/utils/lessdb/lessdb_common.h:319-346 | Sections and blocks follow one another without a gap, from the start of the layout to its computed size |
| LessDbCells.ExtractOther | module/src/utils/lessdb/lessdb.cpp:205-261 | Setting a bit or nibble leaves the others of its byte alone |
| LessDbCells.DecodeStored | module/src/utils/lessdb/lessdb.cpp:282-300 | A little-endian access reads back what was written, cut to its width |
| LessDbCells.BitInMemory | module/src/utils/lessdb/lessdb.cpp:66-86 | Which bit of which byte a bit parameter is, counted from where its section is placed |
| LessDbCells.NibbleInMemory | module/src/utils/lessdb/lessdb.cpp:103-136 | Which half of which byte a nibble parameter is |
| LessDbCells.PlainInMemory | module/src/utils/lessdb/lessdb.cpp:88-166 | Which bytes a byte, word or double word parameter is |
| LessDbDatabase.LessDb.Read | module/src/utils/lessdb/lessdb.cpp:50-181 | A read is the stored value or nothing, from the cache or not, and keeps the cache right, over any run; with a working store it fails only for parameters that do not exist |
| LessDbDatabase.LessDb.ReadPacked | module/src/utils/lessdb/lessdb.cpp:66-136 | Bits and nibbles, through the one-entry cache |
| LessDbDatabase.LessDb.ReadPlain | module/src/utils/lessdb/lessdb.cpp:88-152 | Bytes and words, which file an address but no value |
| LessDbDatabase.LessDb.Update | module/src/utils/lessdb/lessdb.cpp:183-280 | An update that returns true sets that parameter and no other; one that fails touches no byte outside its access |
| LessDbDatabase.LessDb.Write | module/src/utils/lessdb/lessdb.cpp:282-300 | True means the access holds exactly the value, whatever the store reported |
| LessDbDatabase.LessDb.SetLayout | module/src/utils/lessdb/lessdb.cpp:21-48 | Accepted exactly when it is not empty and fits; the cache is left as it is |
| LessDbDatabase.LessDb.Clear | module/src/utils/lessdb/lessdb.cpp:302-306 | The cache is right after clearing exactly when it holds no bit or nibble byte, or a zero |
| LessDbStore.CacheAfterClear | module/src/utils/lessdb/lessdb.cpp:302-306 | The condition behind that, for any memory |
| LessDbStore.UnpackedNeverCached | module/src/utils/lessdb/lessdb.cpp:168-173 | An address filed by a byte or word read is never looked up |
| LessDbDatabase.LessDb.InitData | module/src/utils/lessdb/lessdb.cpp:326-471 | True means every parameter of every section that is not (preserved and the reset partial) holds the value of the first registered provider of this layout, block and section that gives one, or else the default, plus the parameter index modulo 2^32 in byte, word and double word sections that ask for it; bits and nibbles keep the low bits of either. Preserved sections keep their values in a partial reset even when it fails; a working store succeeds if all these values fit |
| LessDbInit.AllReset | module/src/utils/lessdb/lessdb.cpp:326-496 | Every parameter of every section that is initialised holds its provider value or default, counted up and masked as `LessDb.InitData` says |
| LessDbInit.WantedResets | module/src/utils/lessdb/lessdb.cpp:341-496 | The same for one parameter: provider, default, counting up and masking |
| LessDbInit.ProvidedFirst | module/src/utils/lessdb/lessdb.cpp:473-496 | The provider that counts is the first that matches and gives a value |
| LessDbInit.CountedUpIs | module/src/utils/lessdb/lessdb.cpp:354-356 | The default of parameter p counts up by p |
| LessDbDatabase.LessDb.InitSection | module/src/utils/lessdb/lessdb.cpp:341-467 | One section, leaving all bytes outside it alone |
| LessDbDatabase.LessDb.InitPlain | module/src/utils/lessdb/lessdb.cpp:348-387 | Bytes, words and double words, with the defaults that `LessDbInit.WantedResets` spells out |
| LessDbDatabase.LessDb.InitBits | module/src/utils/lessdb/lessdb.cpp:389-424 | Eight bits to a byte |
| LessDbDatabase.LessDb.InitNibbles | module/src/utils/lessdb/lessdb.cpp:426-463 | Two nibbles to a byte |
| LessDbDatabase.LessDb.GatherBits | module/src/utils/lessdb/lessdb.cpp:395-413 | The byte gathered from the defaults |
| LessDbDatabase.LessDb.GatherNibbles | module/src/utils/lessdb/lessdb.cpp:432-455 | The byte gathered from two defaults |
| LessDbDatabase.LessDb.InitValue | module/src/utils/lessdb/lessdb.cpp:473-496 | The first matching provider that gives a value, else the default |
| LessDbDatabase.LessDb.RegisterLayoutInitProvider | module/src/utils/lessdb/lessdb.cpp:308-318 | Providers are kept with the layout they were registered for |
| LessDbInit.PackedStep | module/src/utils/lessdb/lessdb.cpp:389-463 | Writing one packed byte initialises its parameters and disturbs none before it |
| LessDbInit.PackedByteRight | module/src/utils/lessdb/lessdb.cpp:395-455 | Each bit or nibble of the byte is its intended value, masked |
| LessDbInit.StaysInitialised | module/src/utils/lessdb/lessdb.cpp:326-471 | Initialising one section does not disturb another |
| LessDbDatabase.BitPlace | module/src/utils/lessdb/lessdb.cpp:62-70 | The eight-bit index of a bit in its byte is always right; the eight-bit index of the byte is right if and only if the parameter index is below 2048 |
| SysExBackup.BackupReplays | module/src/utils/sysex_conf/sysex_conf.cpp:173-573 | In an open session, a section of 1 to 4032 parameters, 7-bit identifiers and settable values: the frames that answer a backup of all parts, sent back packet by packet to an open session with the same layout, are all acknowledged and set every parameter exactly once, in order, to the value read |
| SysExBackup.BackupAnswered | module/src/utils/sysex_conf/sysex_conf.cpp:327-476 | A backup request is answered by one SET frame for every part, with the values read |
| SysExBackup.PartReplayed | module/src/utils/sysex_conf/sysex_conf.cpp:474-548 | A SET frame sets the parameters of its part in order and is acknowledged by itself |
| SysExBackup.MessageDelivered | module/src/utils/sysex_conf/sysex_conf.cpp:173-221 | A message sent packet by packet, whatever was being received, is handled as one request |
| SysExBackup.FrameLength | module/src/utils/sysex_conf/sysex_conf.cpp:715-769 | The frame of each part has the length a SET request for it must have, the last part included |
| SysExBackup.GetAnswered | module/src/utils/sysex_conf/sysex_conf.cpp:327-476 | A GET of one part is answered with its values; with all 32 the frame is exactly 79 bytes, so the bound is tight |
| SysExRequests.SetSingle | module/src/utils/sysex_conf/sysex_conf.cpp:305-541 | SET of one parameter, from the fifteen bytes received to the bytes sent: one call with exactly the index and value in those bytes if the index is below the count and the value in range, and none otherwise; the same bytes come back with the status 1, 9, 0x0A or that of the handler, unless errors are ignored |
| SysExRequests.GetSingle | module/src/utils/sysex_conf/sysex_conf.cpp:305-470 | GET of one parameter: one call with exactly that index, or none and status 9; the same bytes come back with the status and behind them the value in two bytes, 0 for an error that is ignored, nothing for one that is not |
| SysExRequests.BackupSingle | module/src/utils/sysex_conf/sysex_conf.cpp:334-470 | BACKUP of one parameter is answered by the head of a SET request and the value, without the index |
| SysExSession.BackupSingleRefused | module/src/utils/sysex_conf/sysex_conf.cpp:299-303 | The answer to a BACKUP of one parameter, sent back, is refused for its length by every open session |
| SysExParts.GetAll | module/src/utils/sysex_conf/sysex_conf.cpp:327-573 | GET of all parts: one frame for each part in order, with its values behind the four bytes of the request; part 126 adds the acknowledgement |
| SysExParts.SetPart | module/src/utils/sysex_conf/sysex_conf.cpp:474-548 | SET of one part, for every choice of values and every handler: they are set in order until one is out of range or refused, the ones before it stay set, and the frame comes back with 0x0A, the handler's status or 1 |
| SysExParts.BackupAll | module/src/utils/sysex_conf/sysex_conf.cpp:327-573 | BACKUP of all parts: one SET request for each, and for part 126 the acknowledgement |
| SysExParts.HeaderIs | module/include/zlibs/utils/sysex_conf/sysex_conf_common.h:74-88 | The ten bytes of a frame for all values of a part, in their places |
| SysExSession.RunSession | module/src/utils/sysex_conf/sysex_conf.cpp:173-221 | Over every packet sequence and handler: whether the session is open is decided by the complete messages received, and by nothing but the special requests to open and close it |
| SysExSession.OpenIffLast | module/src/utils/sysex_conf/sysex_conf.cpp:594-619 | The session is open exactly when the last open comes after the last close |
| SysExSession.ClosedRefuses | module/src/utils/sysex_conf/sysex_conf.cpp:241-261 | In every run, while it is closed, each standard request for the device is answered with the connection error, or the length error below 13 bytes, and the handler is not called |
| SysExSession.RequestSession | module/src/utils/sysex_conf/sysex_conf.cpp:83-171 | One message opens the session, closes it or leaves it as it is, by its bytes |
| SysExSession.CloseRequest | module/src/utils/sysex_conf/sysex_conf.cpp:594-609 | Close: the session is closed afterwards; answered 1, or 3 if it was closed; the whole frame |
| SysExSession.OpenRequest | module/src/utils/sysex_conf/sysex_conf.cpp:611-619 | Open: the session is open afterwards; answered 1; the whole frame |
| SysExSession.ConstantRequest | module/src/utils/sysex_conf/sysex_conf.cpp:621-654 | Bytes per value and parameters per message: 00 02 and 00 20 behind the request, or status 3 in a closed session; the session stays as it is |
| SysExSession.CustomRequestAnswered | module/src/utils/sysex_conf/sysex_conf.cpp:656-705 | The first custom request registered with the identifier is called, unless it asks for an open session that is not; the answer has the first 35 values it appends and the status that tells how it went |
| SysExSession.UnknownRequest | module/src/utils/sysex_conf/sysex_conf.cpp:707-710 | Any other wish is answered with status 4 |
| SysExSession.RequestRefused | module/src/utils/sysex_conf/sysex_conf.cpp:241-303 | A standard request that has an error, by its bytes and the first check that fails, comes back with that error and without a call |
| SysExSession.RequestAccepted | module/src/utils/sysex_conf/sysex_conf.cpp:241-325 | A standard request of more than eight bytes is accepted if and only if it has no such error |
| SysExSession.NoRequest | module/src/utils/sysex_conf/sysex_conf.cpp:128-131 | A message whose status is not 0 comes back with status 2 |
| SysExSession.Unanswered | module/src/utils/sysex_conf/sysex_conf.cpp:83-124 | No layout, no frame or another identifier: no answer and no call |
| SysExSession.PacketAssembles | module/src/utils/sysex_conf/sysex_conf.cpp:173-221 | Packets are joined to messages of up to 79 bytes, as a receiver without the protocol would join them, and each complete message is handled once |
| SysExSafety.PacketsSafe | module/src/utils/sysex_conf/sysex_conf.cpp:83-221 | For every packet sequence and every handler behaviour: each frame, its end byte included, fits 79 bytes, and the handler reads and writes only in an open session, inside the layout, with values in range |
| SysExSafety.RequestExtends | module/src/utils/sysex_conf/sysex_conf.cpp:83-171 | The same for one request |
| SysExSafety.ValuesExtend | module/src/utils/sysex_conf/sysex_conf.cpp:392-545 | The loop over the values of a message keeps every response within the buffer and every handler call within the section |
| SysExSafety.SpecialExtends | module/src/utils/sysex_conf/sysex_conf.cpp:590-713 | Special and custom requests keep every response within the buffer, and call the handler only as the session allows |
| SysExModel.MergeSplit | module/include/zlibs/utils/midi/midi_common.h:186-289 | Splitting a value into two data bytes and merging them gives its low fourteen bits |
| SysExModel.SplitMerge | module/include/zlibs/utils/midi/midi_common.h:186-289 | Merging two 7-bit data bytes and splitting the result gives the two bytes back |
| SysExRequests.MergeIs | module/include/zlibs/utils/midi/midi_common.h:186-232 | Two data bytes are the high and low seven bits of a number |
| SysExRequests.SplitIs | module/include/zlibs/utils/midi/midi_common.h:250-289 | A number is split into its high and low seven bits, in that order |
| SysExModel.AddToResponse | module/src/utils/sysex_conf/sysex_conf.cpp:906-919 | Adding a value stays inside the buffer; that the end byte then fits is shown where it is called |
| SysExModel.Refusal | module/src/utils/sysex_conf/sysex_conf.cpp:269-308 | A request that is not refused names a section of the layout and has the one length it may have |
| SysExModel.Values | module/src/utils/sysex_conf/sysex_conf.cpp:392-545 | After the values of one message there is always room for the end byte |
| SysExModel.Append | module/include/zlibs/utils/sysex_conf/sysex_conf_deps.h:39-55 | Appending any number of custom values leaves room for the end byte |
| SysExModel.HandlePacket | module/src/utils/sysex_conf/sysex_conf.cpp:173-221 | Reassembly keeps the shared buffer and its counter in bounds |
| SysExConf.SysExConf.HandlePacket | module/src/utils/sysex_conf/sysex_conf.cpp:173-221 | The object over its 79-byte buffer does what the protocol functions say, and the packets it sends are those of its frames |
| SysExConf.SysExConf.HandleRequest | module/src/utils/sysex_conf/sysex_conf.cpp:83-171 | Refines the protocol function: one request |
| SysExConf.SysExConf.DecodeStandardRequest | module/src/utils/sysex_conf/sysex_conf.cpp:241-325 | Refines the protocol function: decoding and checking; `SysExRequests.SetSingle` and `SysExSession.RequestRefused` say what that comes to, byte by byte |
| SysExConf.SysExConf.ProcessStandardRequest | module/src/utils/sysex_conf/sysex_conf.cpp:327-573 | Refines the protocol function: GET, SET and BACKUP |
| SysExConf.SysExConf.ProcessParts | module/src/utils/sysex_conf/sysex_conf.cpp:367-548 | Refines the protocol function: the loop over parts |
| SysExConf.SysExConf.ProcessValues | module/src/utils/sysex_conf/sysex_conf.cpp:392-545 | Refines the protocol function: the loop over values |
| SysExConf.SysExConf.GetValue | module/src/utils/sysex_conf/sysex_conf.cpp:396-470 | Refines the protocol function: one value read |
| SysExConf.SysExConf.SetValue | module/src/utils/sysex_conf/sysex_conf.cpp:474-541 | Refines the protocol function: one value written |
| SysExConf.SysExConf.SendFinalAck | module/src/utils/sysex_conf/sysex_conf.cpp:550-570 | Refines the protocol function: the acknowledgement after all parts |
| SysExConf.SysExConf.ProcessSpecialRequest | module/src/utils/sysex_conf/sysex_conf.cpp:590-713 | Refines the protocol function: special requests; what each does to the session and the answer are the lemmas of `SysExSession` |
| SysExConf.SysExConf.ReplyCustom | module/src/utils/sysex_conf/sysex_conf.cpp:660-697 | Refines the protocol function: custom requests |
| SysExConf.SysExConf.AppendAll | module/include/zlibs/utils/sysex_conf/sysex_conf_deps.h:39-55 | Refines the protocol function: values appended by a custom handler |
| SysExConf.SysExConf.SendResponse | module/src/utils/sysex_conf/sysex_conf.cpp:881-904 | Refines the protocol function: a response goes out as the packets of its payload |
| SysExConf.SysExConf.AddToResponse | module/src/utils/sysex_conf/sysex_conf.cpp:906-919 | Refines the protocol function: one value appended |
| SysExConf.SysExConf.SendCustomMessage | module/src/utils/sysex_conf/sysex_conf.cpp:851-879 | A message of up to 72 values is sent as it was given, even while another message is arriving in the same buffer |
| SysExConf.SysExConf.SetLayout | module/src/utils/sysex_conf/sysex_conf.cpp:24-37 | A layout closes the session, also when it is refused |
| SysExConf.SysExConf.SetupCustomRequests | module/src/utils/sysex_conf/sysex_conf.cpp:39-60 | Accepted exactly when no identifier is a built-in one |
| SysExConf.SysExConf.Reset | module/src/utils/sysex_conf/sysex_conf.cpp:10-22 | Everything but the record of what was sent is cleared |

## Left out

- EmuEEPROM backend failures: a flash operation that reports failure is not modelled; failure is a power cut between two operations, each of which is atomic. `Hwa::init` and the branches that return on failure are absent.
- EmuEEPROM values of 0xFFFF: the refinement is stated for other values, since the code uses 0xFFFF for "absent".
- EmuEEPROM offsets are unbounded numbers; the source keeps them in 32 bits, so pages are taken to fit in 32 bits.
- EmuRuns.CrashRecovery: excludes cuts in the window of a transfer, where everything is lost, and starts from a store with nothing staged.
- EmuRuns.RunRefines: its restores find a factory page that is not valid, or a clean log with an erased block left; `EmuFactoryCuts.FullSnapshotNeedsRestart` says what a restore of a full page does.
- Power cuts of factory calls in the middle of a longer run: `EmuFactoryCuts` is about one such call from a steady store.
- MidiStream.WriteSysEx7Payload: for an empty payload, the writer is one that refuses sooner or later, since with any other the loop does not end.
- MIDI `sysex7_complete_ump`, note helpers and `type`: easy members.
- BLE `supported` and `deinit`: device calls.
- Ring buffer overwriting under concurrency, and C++ memory orders: the interleaving model is sequentially consistent and has overwriting off.
- Signaling shutdown, thread priorities, allocation time-outs, channels and observables: runs without a stop request only; the generation count is unbounded where the source has 64 bits.
- Calendar 32-bit overflow: fields are unbounded; a minute count near the 32-bit limit would overflow in the source while seconds are carried.
- LessDb layout identifiers are numbers given from outside, not hashes; address arithmetic is unbounded; locking is absent.
- LessDbDatabase.LessDb.SetLayout: requires a layout built by the two builders with at most 2048 bits in a bit section, and keeps the cache right only when it is empty, since the code does not drop it.
- LessDb providers are functions: a provider with a state of its own is not modelled.
- SysExConf messages of more than 72 custom values, whose bytes would not fit the buffer; a packet writer of the handler that refuses a packet.
- SysExConf.SysExConf.SetValue: keeps the merged value in a local where the source stores it in the decoded request, whose field is read nowhere else.
- UART, USB and serial transports, thru routing, motor control, settings, threads, timers, filters and string helpers: device calls or easy members.

# Verified models of the embedded infrastructure

This project models the parts of the repository in which a tricky imperative algorithm has to agree with a simple
abstract object, and proves that it does:

- `EventDispatcher.dfy`, `EventDispatcherCapacity.dfy`, `EventDispatcherThreadAware.dfy`, `EventDispatcherProgress.dfy`:
  the lock-free event dispatcher as a system of small steps of any number of producers and one consumer, what it reports
  of its capacity, its wakeup protocol, and that everything scheduled can always still be executed.
- `Flash.dfy`, `ApplicationCheck.dfy`, `ApplicationInstaller.dfy`, `StartableApplications.dfy`, `StatusJournal.dfy`: flash
  memory with power cuts, the installer of an image, the images and slots that start, told from their bytes, and the
  append-only journal of upgrade results.
- `IntelHex.dfy`, `IntelHexAddresses.dfy`, `IntelHexPatch.dfy`, `IntelHexCombine.dfy`: Intel HEX files (Hexadecimal Object
  File Format Specification, Revision A) as memory maps, with texts and addresses written out, and the two programs that
  rewrite them.
- `ByteOutputStream.dfy`, `BoundedVectorOutputStream.dfy`, `SavedMarkerStream.dfy`: insertion at an earlier position of
  a stream, through a gap that is opened and closed in its storage, nested to any depth.
- `AtomicByteQueue.dfy`, `QueueForOneReaderOneIrqWriter.dfy` over `RingBuffer.dfy`: queues whose reader is interrupted by
  the writer between any two accesses to the shared state.
- `BoundedDeque.dfy`, `BufferingStream.dfy`: streams that hand on bytes from one session to the next.
- `ClaimableResource.dfy`: a resource with queued, urgent, cancelled and moved claims.
- `Eeprom24xx.dfy`: the EEPROM driver next to a model of the device and the bus.
- `Base64.dfy` (section 4 of RFC 4648), `Numerals.dfy`, `TextOutputStream.dfy`, `TextInputStream.dfy`, `Formatter.dfy`,
  `Surface.dfy`: codecs, printing and parsing of numbers, and windows of pixel surfaces.
- `Arithmetic.dfy`, `Bytes.dfy`, `Copying.dfy`, `Sequences.dfy`, `Wrappers.dfy`: what the others share.

Concurrent programs are step systems on values; everything else that updates state in place is a class or a method over
arrays, proved against a function or a ghost field that gives its meaning. A ghost `stream`, `history` or `progress`
records everything that went through an object, so that the contracts speak about whole runs. Nondeterministic values
(`*`) stand for interrupts, results on a bus and the moment of a deadline.

`dafny verify dfyconfig.toml` checks all of it.

## What the code does not do

These properties, which a reader may expect, do not hold of the code. For each there is a run or an input for which it
fails, and the condition under which it holds.

- The dispatcher notices an overflow only after a slot was overwritten: for every size, the run of
  `EventDispatcher.OverflowLosesAnAction` loses an action before any assertion fails. A run keeps the bound of
  `EventDispatcher.ExecutesInSwapOrder` if and only if no producer writes to a slot that is still in use
  (`EventDispatcher.BoundedNeverOverwrites`), and if and only if it never makes a failed assertion possible
  (`EventDispatcher.BoundedNeverFails`, `EventDispatcher.FillFailsExactly`).
- `minCapacity` may be recorded as 1 in an empty ring (`EventDispatcher.OvertakenMeasuresOne`); a measured capacity is
  right if and only if the consumer did not overtake the producer (`EventDispatcher.CapacityIsExactUnlessOvertaken`).
  It is not always the least of what was measured: two activations may measure before either stores
  (`EventDispatcherCapacity.LeastCapacityIsLost`). In every state it is right if and only if no activation stores more
  than is there (`EventDispatcherCapacity.ReportsLeastExactly`).
- A cut in `StatusJournal::Clear`, or in the write behind it, loses the old report
  (`StatusJournal.CutInFullJournalLosesBoth`); `StatusJournal.CutIsAtomicExactly` has the condition.
- `PatchHex` counts bytes, not coverage: it accepts a file that lacks a byte of the range
  (`IntelHexPatch.RepeatedAddressFoolsTheCounter`) and refuses one that has all of it
  (`IntelHexPatch.RepeatedAddressIsRefused`). Of a range that is there, and of a counter that is reached, the other one
  follows if and only if no address of the range is written twice (`IntelHexPatch.CounterTellsCoverage`).
- The checks of a range added to `QueueForOneReaderOneIrqWriter` let everything pass while the read index is at the
  start of the buffer (`QueueForOneReaderOneIrqWriter.ChecksAreExact`), also a range of the whole size
  (`QueueForOneReaderOneIrqWriter.FullBufferLooksEmpty`).
- `QueueForOneReaderOneIrqWriter::StreamReader::Commit` does not lower the initial size, so that `Available` is 1 of an
  empty queue (`QueueForOneReaderOneIrqWriter.CommittedIsStillAvailable`); it is right if and only if no more was
  committed than was added (`QueueForOneReaderOneIrqWriter.StreamReader.Available`).
- `BufferingStreamReader::PeekContiguousRange` skips bytes, or asks the input beyond its end (`BufferingStream.PeekingSkips`,
  `BufferingStream.PeekingGoesBeyond`), if and only if the input was read
  (`BufferingStream.BufferingStreamReader.PeeksAtNext`).
- Decoding with `FromBase64` accepts a text without its padding (`Base64.UnpaddedIsAccepted`), and that of every encoding
  (`Base64.UnpaddedHolds`); `Base64.FromBase64` has the exact condition.
- `Base64DecodedSize` reads before a text such as "====", if and only if it has four or more characters and all of them
  are padding (`Base64.DecodedSizeFails`).

## Model

| member | source | states |
|---|---|---|
| `EventDispatcher.ExecutesInSwapOrder` | infra/event/EventDispatcher.cpp:14-32 | In every interleaving in which no producer starts to fill a slot for a ticket a ring or more ahead of the flags that were lowered, the actions that ran are, in order and each once, those of the successful swaps, each with the action that its own producer wrote |
| `EventDispatcher.RunKeepsInv` | infra/event/EventDispatcher.cpp:14-90 | Over every bounded run: slot flags, torn or held contents, indices and the program counters of all producers and of the consumer agree with the ticket counters |
| `EventDispatcher.StepKeepsInv` | infra/event/EventDispatcher.cpp:62-90 | Each single step of a producer or of the consumer, also when the action throws or schedules, keeps that agreement |
| `EventDispatcher.SwapKeepsInv` | infra/event/EventDispatcher.cpp:19-22 | A successful compare-and-swap, also in a full ring, reserves the slot of the next ticket and no other, and keeps that agreement |
| `EventDispatcher.StaleSwapIsHarmless` | infra/event/EventDispatcher.cpp:16-22 | A compare-and-swap that succeeds on an index that went all the way round since it was loaded has the same effect as a fresh one, and reserves an empty slot unless the ring is full |
| `EventDispatcher.RunSchedules` | infra/event/EventDispatcher.cpp:14-22 | Every successful swap adds exactly the action of the step that made it |
| `EventDispatcher.IdleIsHeadUnpublished` | infra/event/EventDispatcher.cpp:92-95 | To its consumer the dispatcher looks idle if and only if there is no ticket at the head, or its producer has not published it, whatever is published behind it |
| `EventDispatcher.IdleMeansAllExecuted` | infra/event/EventDispatcher.cpp:43-47 | When every Schedule returned, the dispatcher looks idle if and only if every scheduled action ran |
| `EventDispatcher.CapacityIsExactUnlessOvertaken` | infra/event/EventDispatcher.cpp:28 | The capacity that a producer measures is the number of slots from its own on up to the one before the pop index, its own included, if and only if its ticket lies in the ring that starts at the pop index, so that the consumer has not overtaken it |
| `EventDispatcher.OvertakenMeasuresOne` | infra/event/EventDispatcher.cpp:28 | In a ring of any size of two or more, a run in which an overtaken producer measures a capacity of one while all slots are free |
| `EventDispatcherCapacity.ReportsLeastCapacity` | infra/event/EventDispatcher.cpp:28 | After every run in which no two activations measure before one of them stores, and no value waits to be stored, the reported capacity is one of those that were measured, or the size of the ring, and none of them is less |
| `EventDispatcherCapacity.ReportsLeastExactly` | infra/event/EventDispatcher.cpp:28 | Over every run: in each state the reported capacity is the least of the stored ones, as they were measured, if and only if no activation stores more than is there |
| `EventDispatcherCapacity.LeastCapacityIsLost` | infra/event/EventDispatcher.cpp:28 | In a ring of any size of two or more, a run in which two activations measure before either stores, and the lower of the two capacities is stored over and lost |
| `EventDispatcher.InsideIsUnused` | infra/event/EventDispatcher.cpp:24-25 | A ticket is a ring or more ahead if and only if an earlier outstanding ticket still uses the slot that is about to be filled |
| `EventDispatcher.BoundedNeverOverwrites` | infra/event/EventDispatcher.cpp:14-26 | Over every run: the bound of the main result holds if and only if no producer ever starts to fill a slot that an earlier outstanding ticket still uses |
| `EventDispatcher.OutsideFails` | infra/event/EventDispatcher.cpp:24-25 | From every state in which a producer starts to fill a slot for a ticket a ring or more ahead, the run can go on, without another such fill, to the failed assertion of line 25 |
| `EventDispatcher.FillFailsExactly` | infra/event/EventDispatcher.cpp:24-25 | After a fill has started, the run can go on without another fill a ring ahead to a failed assertion if and only if this fill is a ring or more ahead |
| `EventDispatcher.BoundedNeverFails` | infra/event/EventDispatcher.cpp:14-29 | Over every run: the bound of the main result holds if and only if no state of the run makes a failed assertion possible without a further fill a ring ahead |
| `EventDispatcher.OverwrittenIsLost` | infra/event/EventDispatcher.cpp:24-25 | From every state in which the consumer polls a published head whose slot a producer reserved as well: filling it makes the consumer start the later action in place of the head, before any assertion failed |
| `EventDispatcher.OverflowLosesAnAction` | infra/event/EventDispatcher.cpp:24-25 | For every size of the ring, a run with one ticket too many in which the first action is lost and the last one runs in its place, without a failed assertion |
| `EventDispatcherThreadAware.RefinesRing` | infra/event/EventDispatcherWithWeakPtr.cpp:14-47 | Every run with the mutex, the condition and the ready flag is a run of the ring |
| `EventDispatcherThreadAware.RunKeepsInv` | infra/event/EventDispatcherThreadAware.cpp:5-23 | The mutex has one holder, a published head is announced or about to be, and a sleeper that must wake is notified, over every bounded run |
| `EventDispatcherThreadAware.NoLostWakeup` | infra/event/EventDispatcherThreadAware.cpp:13-23 | Whenever the consumer is about to wait or waits with the flag unset, the head is unpublished or some producer published and has not notified yet |
| `EventDispatcherThreadAware.SleepsOnlyWhenAllExecuted` | infra/event/EventDispatcherWithWeakPtr.cpp:34-47 | A consumer that is blocked while no Schedule is in progress has executed everything that was scheduled |
| `EventDispatcherThreadAware.SleeperIsWoken` | infra/event/EventDispatcherThreadAware.cpp:5-11 | From every state in which the consumer sleeps with a published head, the remaining steps of the announcing producer wake it, in a number of steps that is computed |
| `EventDispatcherThreadAware.NextToWake` | infra/event/EventDispatcherThreadAware.cpp:5-23 | In such a state some step towards waking is enabled, and it makes that number smaller |
| `EventDispatcherProgress.WorkerReturns` | infra/event/EventDispatcherThreadAware.cpp:13-23 | From every reachable state with a published head, wherever the worker stands, asleep or woken, the steps under way lead it back to the ring |
| `EventDispatcherProgress.ConsumesHead` | infra/event/EventDispatcher.cpp:62-90 | A worker at the ring pops the published head, and its slot is empty with its flag down, whether the action returns or throws |
| `EventDispatcherProgress.ExecutesHead` | infra/event/EventDispatcherWithWeakPtr.cpp:34-47 | From every reachable state with a published head, wherever the worker stands, the run can go on by finishing what is under way, so that one more action is popped and the executed ones are the scheduled ones up to it, whether actions return or throw |
| `EventDispatcherProgress.OwnerPublishes` | infra/event/EventDispatcher.cpp:24-26 | A head that is reserved but not published is published by the remaining steps of the activation that owns it |
| `EventDispatcherProgress.AllIsExecuted` | infra/event/EventDispatcherWithWeakPtr.cpp:34-47 | From every reachable state the run can go on by finishing what is under way until every scheduled action was executed, in the order of the swaps |
| `EventDispatcherProgress.EveryRunCompletes` | infra/event/EventDispatcherWithWeakPtr.cpp:14-47 | Every bounded run can be completed so that it has executed exactly what its labels say was scheduled |
| `EventDispatcherProgress.ComesToRest` | infra/event/EventDispatcherThreadAware.cpp:13-23 | With nothing left to do the worker lowers the flag and blocks |
| `Flash.ProgrammingErasedStores` | bootloader/test/FlashFake.hpp:33-34 | Programming bytes that are erased stores the data and changes nothing else |
| `Flash.ProgrammingClearsBits` | bootloader/test/FlashFake.hpp:33-34 | Programming clears the bits that are cleared in the data and sets none |
| `Flash.ProgrammedAt` | bootloader/test/FlashFake.hpp:33-34 | Each byte after programming: the conjunction with the byte of the data where that covers it, unchanged elsewhere |
| `Flash.SynchronousFlash.ReadBuffer` | bootloader/test/FlashFake.hpp:37-41 | Returns the bytes at an address |
| `Flash.SynchronousFlash.WriteBuffer` | bootloader/test/FlashFake.hpp:23-35 | Programs the bytes in ascending order; the states in between are exactly the prefixes of the write, and the flag for writes onto bytes that are not erased is exact |
| `Flash.SynchronousFlash.EraseSectors` | bootloader/test/FlashFake.hpp:43-52 | Erases the sectors in ascending order; the states in between are exactly those after each sector |
| `ApplicationCheck.ErasedVectorsDoNotStart` | bootloader/ApplicationCheck.cpp:19-27 | A slot whose first eight bytes are erased is not startable, whatever the rest holds |
| `ApplicationCheck.ErasedMagicDoesNotStart` | bootloader/ApplicationCheck.cpp:48-50 | A descriptor without the last byte of its magic is not accepted |
| `ApplicationCheck.HugeSizeDoesNotStart` | bootloader/ApplicationCheck.cpp:48-50 | A descriptor without the last byte of its size is not accepted, as that size exceeds any slot |
| `ApplicationCheck.TornDescriptorDoesNotStart` | bootloader/ApplicationCheck.cpp:43-54 | Behind an image, a descriptor of which any number of bytes was programmed is accepted only if nothing is missing from it, whatever the hash is |
| `ApplicationCheck.CompleteStarts` | bootloader/ApplicationCheck.cpp:37-54 | A slot with an image and its full descriptor is startable if and only if the start of the image fits the target |
| `ApplicationCheck.StartDecides` | bootloader/ApplicationCheck.cpp:37-41 | The check of any start of the image that reaches behind the header decides the check of the image |
| `StartableApplications.ImageFits` | bootloader/ApplicationCheck.cpp:19-41 | Which images fit, told from their bytes: the length, the number of the stack pointer in the RAM, an odd reset handler in front of the descriptor, the bytes of magic and version, and what the target accepts |
| `StartableApplications.WrittenAt` | bootloader/ApplicationCheck.cpp:11-17 | Four bytes that were written for a number, least significant first, stand for that number |
| `StartableApplications.SlotStarts` | bootloader/ApplicationCheck.cpp:43-54 | Which slots start, told from their bytes: the four bytes of the magic, the number of the size, the hash in its place, and an image that fits |
| `StartableApplications.VectorsDecide` | bootloader/ApplicationCheck.cpp:19-27 | A described image with a header for this target starts if and only if its stack pointer and its entry lie in the ranges of the layout, where the reset handler is the even entry with its lowest bit set |
| `StartableApplications.RefusedImages` | bootloader/ApplicationCheck.cpp:19-41 | No image with an even reset handler, another magic, another version or a header that the target does not accept is started |
| `ApplicationInstaller.DecryptedPart` | bootloader/ApplicationInstaller.cpp:63-85 | Decrypting in parts gives the parts of the whole decryption, at the position reached in the key stream |
| `ApplicationInstaller.PreparedIsErased` | bootloader/ApplicationInstaller.cpp:66-74 | After the erasure both the place of the image and the place of the descriptor are erased, also when they share a sector |
| `ApplicationInstaller.PreparedAt` | bootloader/ApplicationInstaller.cpp:66-74 | The bytes of the sectors that the image reaches and of the last sector are erased, and no others |
| `ApplicationInstaller.EraseStatesDoNotStart` | bootloader/ApplicationInstaller.cpp:66-74 | A power cut after any sector of the erasure leaves a slot that is not startable |
| `ApplicationInstaller.CopyStatesDoNotStart` | bootloader/ApplicationInstaller.cpp:76-86 | A power cut after any byte of the copy leaves a slot that is not startable |
| `ApplicationInstaller.AnyDescriptorStateIsSafe` | bootloader/ApplicationInstaller.cpp:100-102 | A power cut after any byte of the descriptor leaves a slot that is not startable, or complete |
| `ApplicationInstaller.ApplicationInstaller.StartFitsTarget` | bootloader/ApplicationInstaller.cpp:51-64 | Tells whether the start of the decrypted image fits the target, with a second decryptor from the same counter |
| `ApplicationInstaller.ApplicationInstaller.EraseFor` | bootloader/ApplicationInstaller.cpp:66-74 | The slot afterwards and every state in between |
| `ApplicationInstaller.ApplicationInstaller.Copy` | bootloader/ApplicationInstaller.cpp:76-86 | The slot holds the decrypted image for any size of buffer, every byte landed on an erased one, and no state in between starts |
| `ApplicationInstaller.ApplicationInstaller.WriteDescriptor` | bootloader/ApplicationInstaller.cpp:88-103 | The slot afterwards is complete, and every state in between is safe |
| `ApplicationInstaller.ApplicationInstaller.Install` | bootloader/ApplicationInstaller.cpp:40-43 | Erase, copy and describe: the final contents and the safety of every state that a power cut can leave |
| `ApplicationInstaller.ApplicationInstaller.Upgrade` | bootloader/ApplicationInstaller.cpp:29-44 | Returns 0 if and only if destination, size and start fit, and then the slot holds exactly the decrypted image with its descriptor, is startable, and all writes went onto erased bytes; any other result leaves the slot as it was; at every cut point the slot is untouched, not startable, or complete |
| `StartableApplications.DecryptedBits` | upgrade/boot_loader/DecryptorAesTiny.cpp:27-44 | Each bit of a decrypted byte is turned over exactly where the key stream has a one |
| `StartableApplications.DecryptedTwice` | upgrade/boot_loader/DecryptorAesTiny.cpp:27-44 | Decryption is its own inverse |
| `StartableApplications.UpgradeFromPack` | bootloader/ApplicationInstaller.cpp:29-64 | From a pack that was made for an image, encrypted behind its counter: the result is told from the bytes of that image in numbers; it is 0 if and only if the slot afterwards holds that image and its descriptor, byte for byte, and starts; otherwise the slot is untouched; every state a cut can leave is the old one, is not started, or is complete |
| `StatusJournal.WholeEntry` | bootloader/StatusJournal.cpp:24-33 | A written entry is valid, not erased, and reads back as its report |
| `StatusJournal.CheckBits` | bootloader/StatusJournal.cpp:9-12 | Each bit of the check tells whether an even number of those of marker, status and error code are set |
| `StatusJournal.CheckTells` | bootloader/StatusJournal.cpp:9-12 | Reports with the same check differ in both status and error code, or in neither |
| `StatusJournal.ChangedEntryIsInvalid` | bootloader/StatusJournal.cpp:24-33 | An entry of which the status alone, or the error code alone, is not the one that its check was made for is not valid |
| `StatusJournal.StartedEntryIsNotErased` | bootloader/StatusJournal.cpp:14-21 | An entry of which any byte was programmed does not look erased |
| `StatusJournal.TornEntryIsInvalidOrWhole` | bootloader/StatusJournal.cpp:9-33 | A partly programmed entry is not valid, unless it equals the whole one byte for byte |
| `StatusJournal.ErasedCheckDoesNotFit` | bootloader/StatusJournal.cpp:9-12 | As long as the last byte of the error code is not programmed, the check that would fit is not an erased one |
| `StatusJournal.WrittenJournal` | bootloader/StatusJournal.cpp:73-91 | After a complete or interrupted write the journal is still used from the front, with the next free place behind it |
| `StatusJournal.StatusJournal.Read` | bootloader/StatusJournal.cpp:73-91 | Finds the last valid entry before the first erased one, and the place of that one |
| `StatusJournal.StatusJournal.Status` | bootloader/StatusJournal.cpp:39-43 | The status of the last valid entry, and empty without one |
| `StatusJournal.StatusJournal.ErrorCode` | bootloader/StatusJournal.cpp:45-49 | The error code of the last valid entry, and 0 without one |
| `StatusJournal.StatusJournal.Record` | bootloader/StatusJournal.cpp:51-66 | Leaves the journal as specified: unchanged if the report is the latest, behind the last entry if there is room, and on an erased flash otherwise |
| `StatusJournal.RunSafety` | bootloader/StatusJournal.cpp:51-91 | Over any sequence of records, each of which may be cut after any byte of a write into a free place, the report afterwards is that of the last record that was written as a whole |
| `StatusJournal.CutIsAtomicExactly` | bootloader/StatusJournal.cpp:57-65 | A cut record leaves the old or the new report if and only if there was room, or nothing was missing from the entry, or the old or the new report is that of an empty journal |
| `StatusJournal.CutsAreProgramStates` | bootloader/StatusJournal.cpp:64-65 | The states that the flash goes through while an entry is programmed are those of a cut after each of its bytes, and no others |
| `StatusJournal.CutInFullJournalLosesBoth` | bootloader/StatusJournal.cpp:57-65 | A full journal and a cut record after which neither the old nor the new report is left |
| `IntelHex.TrimmedIsTrimmed` | application/bootloader_image/Image.cpp:13-19 | Trimming a trimmed line changes nothing |
| `IntelHex.ParseRecord` | application/bootloader_image/Image.cpp:73-86 | The imperative parser accepts exactly the lines that the specification accepts, and returns its record |
| `IntelHex.RecordBytes` | application/bootloader_image/Image.cpp:57-71 | The bytes of a line, or nothing |
| `IntelHex.Format` | application/bootloader_image/Image.cpp:88-103 | The text of a record, checksum included |
| `IntelHex.ParseInvertsFormat` | application/bootloader_image/Image.cpp:73-103 | Parsing a formatted record gives that record, for all records of up to 255 bytes |
| `IntelHexAddresses.FormatInvertsParse` | application/bootloader_image/Image.cpp:73-103 | Formatting what was parsed from capital digits gives back the text, so that only the formatted text is the record |
| `IntelHexAddresses.OtherChecksumIsRefused` | application/bootloader_image/Image.cpp:79-83 | The bytes of a record with any other last byte than its checksum do not parse |
| `IntelHexAddresses.DigitsOfBothCases` | application/bootloader_image/Image.cpp:42-51 | The digits are those of both cases, at their values, and no other characters |
| `IntelHexAddresses.LinearAddressRecord` | application/bootloader_image/Image.cpp:73-103 | The text :020000040800F2 is the record that sets the upper half of the addresses to 0x0800, in both directions |
| `IntelHexAddresses.DataRecord` | application/bootloader_image/Image.cpp:73-103 | The text :0301FE0001A2FF5C is the record of three bytes at 0x01fe, in both directions |
| `IntelHexAddresses.DataIsAt` | application/bootloader_image/Image.cpp:105-111 | Behind any file, byte i of a data record at offset o is at (h * 256 + l) * 65536 + o + i after an extended linear address of h and l, and at (h * 256 + l) * 16 + o + i after an extended segment address; everything else stays |
| `IntelHex.AfterLinesOverlay` | application/bootloader_image/Image.cpp:105-111 | What a file adds to a memory does not depend on that memory |
| `IntelHex.AfterMoreLines` | application/bootloader_image/Image.cpp:183-197 | The meaning of two files in a row is that of the second after the first |
| `IntelHexPatch.Overwrite` | application/bootloader_image/Image.cpp:113-127 | Overwrites the bytes of a record that are in range and counts each one |
| `IntelHexPatch.PatchHex` | application/bootloader_image/Image.cpp:177-204 | Succeeds if and only if all lines that are not blank parse and the counter reaches the size of the range; then the lines are the patched ones, and unchanged otherwise |
| `IntelHexPatch.PatchedLineParses` | application/bootloader_image/Image.cpp:189-196 | A patched line parses, and only the bytes of its data differ |
| `IntelHexPatch.StoredOverwritten` | application/bootloader_image/Image.cpp:113-127 | An overwritten record stores what the record stored, overlaid by the new bytes where it reaches the range |
| `IntelHexPatch.PatchPreservesMeaning` | application/bootloader_image/Image.cpp:177-204 | The memory map of the patched lines is the old one, overwritten on exactly the part of the range that it has; all records still parse |
| `IntelHexAddresses.PatchTwoRecords` | application/bootloader_image/Image.cpp:177-204 | A file of an address record and a data record is patched if and only if the range is empty or lies in the data, at addresses in numbers; then the first line is as it was, and the second one is the record with the bytes at their place |
| `IntelHexPatch.CountsRepeats` | application/bootloader_image/Image.cpp:113-127 | The counter is at least the number of addresses of the range that were found, and equal to it if and only if none of them is written twice |
| `IntelHexPatch.CounterTellsCoverage` | application/bootloader_image/Image.cpp:199 | If the counter reaches the size of the range, the range is present if and only if nothing repeats in it; if the range is present, the counter is reached if and only if nothing repeats; if nothing repeats, the counter is reached if and only if the range is present |
| `IntelHexPatch.RepeatedAddressFoolsTheCounter` | application/bootloader_image/Image.cpp:199 | A file with an address that occurs twice for which the counter is reached although a byte of the range is missing |
| `IntelHexPatch.RepeatedAddressIsRefused` | application/bootloader_image/Image.cpp:199 | A file with an address that occurs twice for which the counter exceeds the size of a range that is present |
| `IntelHexPatch.WrittenKeys` | application/bootloader_image/Image.cpp:113-127 | The addresses of the memory map are those of the data records |
| `IntelHexCombine.KindIsText` | application/bootloader_image/Image.cpp:144 | The record type that is read as text is the parsed one |
| `IntelHexCombine.WhatIsKept` | application/bootloader_image/Image.cpp:144-148 | A line that parses is dropped if its record is of type 1, or of type 3 or 5 where start addresses are not kept, and otherwise taken over as it is, trimmed |
| `IntelHexCombine.Append` | application/bootloader_image/Image.cpp:134-150 | Takes over the lines, without blank ones, ends of file and, if so told, start addresses; or names the first line that is no record |
| `IntelHexCombine.Combine` | application/bootloader_image/Image.cpp:161-175 | The combined lines, or the first line of either file that is no record |
| `IntelHexCombine.KeptMeaning` | application/bootloader_image/Image.cpp:134-150 | Taking over a file keeps its memory map |
| `IntelHexCombine.FromZeroMeaning` | application/bootloader_image/Image.cpp:11 | The two address records between the files bring the base back to 0, whatever it was |
| `IntelHexCombine.CombinePreservesMeaning` | application/bootloader_image/Image.cpp:161-175 | The memory map of the combination is that of the bootloader overlaid by that of the application read from base 0, and the start addresses are those of the bootloader |
| `IntelHexCombine.CombineEndsOnce` | application/bootloader_image/Image.cpp:173 | All lines of the combination parse, and the last one is the only end of file |
| `Copying.Copy` | infra/stream/ByteOutputStream.cpp:64 | A forward copy within memory, element by element, also when source and destination overlap |
| `Copying.CopyBackward` | infra/stream/ByteOutputStream.cpp:57 | A copy from the end, also when source and destination overlap |
| `ByteOutputStream.ByteOutputStreamWriter.Insert` | infra/stream/ByteOutputStream.cpp:30-36 | Appends as much as fits, tells whether all did, and leaves the memory outside the range alone |
| `ByteOutputStream.ByteOutputStreamWriter.SaveState` | infra/stream/ByteOutputStream.cpp:53-60 | The text around the gap is the one before, split at the marker |
| `ByteOutputStream.ByteOutputStreamWriter.RestoreState` | infra/stream/ByteOutputStream.cpp:62-66 | The text is what precedes the unused range followed by what follows it |
| `BoundedVectorOutputStream.BoundedVectorStreamWriter.Insert` | infra/stream/BoundedVectorOutputStream.cpp:19-26 | Appends as much as fits |
| `BoundedVectorOutputStream.BoundedVectorStreamWriter.Resize` | infra/util/BoundedVector.hpp:341-348 | Drops bytes at the end or appends zeroes |
| `BoundedVectorOutputStream.BoundedVectorStreamWriter.SaveState` | infra/stream/BoundedVectorOutputStream.cpp:43-51 | The text around the gap is the one before, split at the marker, over all of the storage |
| `BoundedVectorOutputStream.BoundedVectorStreamWriter.RestoreState` | infra/stream/BoundedVectorOutputStream.cpp:53-57 | The text is what precedes the unused range followed by what follows it |
| `SavedMarkerStream.Session` | infra/stream/SavedMarkerStream.cpp:5-23 | For any marker, any inserts, commits and undos, and any nesting, a closed session leaves the text before the marker, the surviving bytes, and the text behind it; everything outside the stream is unchanged |
| `SavedMarkerStream.VectorSession` | infra/stream/SavedMarkerStream.cpp:5-23 | The same with a bounded vector as the outer stream |
| `SavedMarkerStream.CommittedStays` | infra/stream/SavedMarkerStream.cpp:15-18 | What was committed is at the front of the surviving bytes, whatever follows |
| `SavedMarkerStream.UndoForgets` | infra/stream/SavedMarkerStream.cpp:20-23 | Undo without a commit before it gives up everything, nested sessions included |
| `SavedMarkerStream.InsertsSurvive` | infra/stream/ByteOutputStream.cpp:30-36 | Without undo and nesting, the longest prefix of the inserted bytes that fits survives |
| `SavedMarkerStream.NestingAtEndAppends` | infra/stream/SavedMarkerStream.cpp:5-13 | A session opened at the end of a stream and used in any way appends what survives of it as that stream would; without undo and nesting, that is all that was inserted |
| `SavedMarkerStream.Apply` | infra/stream/SavedMarkerStream.cpp:15-23 | No operation changes the sum of surviving bytes and remaining room |
| `RingBuffer.PushedPiece` | infra/stream/AtomicByteQueue.cpp:13-21 | A piece up to the end of the storage, of no more than is free, lands behind what is unread |
| `RingBuffer.PoppedPiece` | infra/stream/AtomicByteQueue.cpp:27-36 | Moving the read index gives up exactly the first bytes |
| `RingBuffer.SpanIsUnread` | infra/stream/AtomicByteQueue.cpp:70-79 | Contiguous bytes of the storage are consecutive unread ones |
| `AtomicByteQueue.Queue.Push` | infra/stream/AtomicByteQueue.cpp:9-25 | Appends to the stream of pushed bytes; no unread byte is overwritten, also between the two updates of a pop |
| `AtomicByteQueue.Queue.Insert` | infra/stream/AtomicByteQueue.cpp:152-157 | Pushes as much as fits |
| `AtomicByteQueue.Queue.Pop` | infra/stream/AtomicByteQueue.cpp:27-40 | Frees exactly the first bytes, with interrupts between its two updates of the read index |
| `AtomicByteQueue.Queue.Size` | infra/stream/AtomicByteQueue.cpp:42-51 | The number of unread bytes when the second index was loaded |
| `AtomicByteQueue.Queue.PeekContiguousRange` | infra/stream/AtomicByteQueue.cpp:65-80 | The next bytes of the stream from a position, as far as they are contiguous, and none only if there were none |
| `AtomicByteQueue.Reader.Extract` | infra/stream/AtomicByteQueue.cpp:92-104 | Delivers the next bytes of the stream in order across the wrap, with interrupts between any two accesses; all of them unless the queue ran empty |
| `AtomicByteQueue.Reader.Commit` | infra/stream/AtomicByteQueue.cpp:86-90 | Gives back what was read; the position in the stream stays |
| `AtomicByteQueue.Reader.Available` | infra/stream/AtomicByteQueue.cpp:133-136 | The bytes behind the position when the second index was loaded |
| `QueueForOneReaderOneIrqWriter.FullIsNoRoom` | infra/event/QueueForOneReaderOneIrqWriter.hpp:158-162 | The queue is full if and only if no further element fits |
| `QueueForOneReaderOneIrqWriter.ChecksAreExact` | infra/event/QueueForOneReaderOneIrqWriter.hpp:120-136 | The two checks let exactly the ranges pass that fit, unless the read index is at the start of the buffer: then they let everything pass |
| `QueueForOneReaderOneIrqWriter.FullBufferLooksEmpty` | infra/event/QueueForOneReaderOneIrqWriter.hpp:120-138 | A range of the size of an empty buffer passes both checks and leaves the queue looking empty |
| `QueueForOneReaderOneIrqWriter.PushedRange` | infra/event/QueueForOneReaderOneIrqWriter.hpp:127-138 | Both parts of a range that fits land behind what is unread |
| `QueueForOneReaderOneIrqWriter.Queue.AddFromInterrupt` | infra/event/QueueForOneReaderOneIrqWriter.hpp:92-110 | Appends an element and leaves a notification pending |
| `QueueForOneReaderOneIrqWriter.Queue.AddRangeFromInterrupt` | infra/event/QueueForOneReaderOneIrqWriter.hpp:112-141 | Appends a range that fits; a range that does not fit when the contents wrap is dropped without a trace |
| `QueueForOneReaderOneIrqWriter.Queue.NotifyDataAvailable` | infra/event/QueueForOneReaderOneIrqWriter.hpp:248-256 | Keeps at most one call in the dispatcher, and one whenever there are unseen elements |
| `QueueForOneReaderOneIrqWriter.Queue.DataAvailable` | infra/event/QueueForOneReaderOneIrqWriter.hpp:258-263 | When the callback starts, with interrupts before and after the flag is cleared, no unseen element is without a notification |
| `QueueForOneReaderOneIrqWriter.Queue.Get` | infra/event/QueueForOneReaderOneIrqWriter.hpp:164-176 | Delivers the next element of the stream |
| `QueueForOneReaderOneIrqWriter.Queue.Consume` | infra/event/QueueForOneReaderOneIrqWriter.hpp:216-226 | Frees exactly the first elements, with interrupts between its two updates of the read index |
| `QueueForOneReaderOneIrqWriter.Queue.ContiguousRange` | infra/event/QueueForOneReaderOneIrqWriter.hpp:196-214 | The next elements from a position, as far as they are contiguous, and none only if there were none |
| `QueueForOneReaderOneIrqWriter.Queue.Size` | infra/event/QueueForOneReaderOneIrqWriter.hpp:228-240 | The number of unread elements when the second index was loaded |
| `QueueForOneReaderOneIrqWriter.Queue.At` | infra/event/QueueForOneReaderOneIrqWriter.hpp:178-194 | The element at a position behind the first unread one |
| `QueueForOneReaderOneIrqWriter.StreamReader.Extract` | infra/event/QueueForOneReaderOneIrqWriter.hpp:277-291 | Delivers the next bytes in order, with interrupts between any two accesses; all of them unless the queue ran empty or the initial size was read |
| `QueueForOneReaderOneIrqWriter.StreamReader.Available` | infra/event/QueueForOneReaderOneIrqWriter.hpp:324-328 | What the reader says is available is there if and only if Commit gave back no more than was added since the reader was made; it exceeds what is there by exactly the difference |
| `QueueForOneReaderOneIrqWriter.StreamReader.Commit` | infra/event/QueueForOneReaderOneIrqWriter.hpp:270-275 | Gives back what was read, but does not lower the initial size |
| `QueueForOneReaderOneIrqWriter.CommittedIsStillAvailable` | infra/event/QueueForOneReaderOneIrqWriter.hpp:270-328 | One byte is added, read and committed: one byte is said to be available in an empty queue |
| `BoundedDeque.BoundedDeque.ContiguousRange` | infra/util/BoundedDeque.hpp:402-412 | A prefix of the elements from a position, empty only at the end |
| `BoundedDeque.BoundedDeque.TwoPieces` | infra/util/BoundedDeque.hpp:402-412 | Two contiguous pieces make up all elements from a position |
| `BoundedDeque.BoundedDeque.EraseFront` | infra/util/BoundedDeque.hpp:651-661 | Drops the first elements; the start moves along the ring |
| `BufferingStream.BufferingStreamWriter.constructor` | infra/stream/BufferingStreamWriter.cpp:5-10 | Loads the remainder: nothing is lost or reordered, and the buffer is empty unless the output is full |
| `BufferingStream.BufferingStreamWriter.Insert` | infra/stream/BufferingStreamWriter.cpp:12-21 | What was accepted, delivered or buffered, grows by exactly the data |
| `BufferingStream.BufferingStreamReader.Extract` | infra/stream/BufferingStreamReader.cpp:15-28 | Delivers the next bytes of buffer and input; succeeds if and only if what the buffer lacks is contiguous in the input |
| `BufferingStream.BufferingStreamReader.ExtractContiguousRange` | infra/stream/BufferingStreamReader.cpp:42-55 | Delivers next bytes, and none only at the end |
| `BufferingStream.BufferingStreamReader.Rewind` | infra/stream/BufferingStreamReader.cpp:80-94 | Goes back to any earlier position of the session, in the buffer or in the input |
| `BufferingStream.BufferingStreamReader.Available` | infra/stream/BufferingStreamReader.cpp:70-73 | The number of bytes behind the position |
| `BufferingStream.BufferingStreamReader.PeekContiguousRange` | infra/stream/BufferingStreamReader.cpp:57-63 | The bytes that are peeked at, which are further on than the next ones once the input was read; nothing if and only if the input is asked beyond its end |
| `BufferingStream.BufferingStreamReader.PeeksAtNext` | infra/stream/BufferingStreamReader.cpp:62 | Peeking looks at the next bytes if and only if nothing was read from the input yet |
| `BufferingStream.BufferingStreamReader.StoreRemainder` | infra/stream/BufferingStreamReader.cpp:104-113 | What was consumed followed by the buffer is the old buffer followed by the input |
| `BufferingStream.PeekingSkips` | infra/stream/BufferingStreamReader.cpp:57-63 | An input of three bytes of which one was read: peeking shows the last byte, and the next ones are the last two |
| `BufferingStream.PeekingGoesBeyond` | infra/stream/BufferingStreamReader.cpp:57-63 | An input of three bytes of which two were read: peeking asks the input beyond its end, and the last byte is next |
| `BufferingStream.WriterSession` | infra/stream/BufferingStreamWriter.cpp:5-43 | A writer made for an output of any capacity and used for any insertions that fit: as much of the old buffer and the data as fits goes out, and the rest is in the buffer |
| `BufferingStream.WriterSessions` | infra/stream/BufferingStreamWriter.cpp:5-43 | Over any number of writer sessions on one buffer, what went out followed by the buffer is the first buffer followed by what was inserted, and no session holds back what its output would have taken |
| `BufferingStream.ReaderSession` | infra/stream/BufferingStreamReader.cpp:5-113 | A reader made for any input and used for any extractions and rewinds: what was delivered followed by the buffer is the old buffer followed by the input, if and only if the remainder fits |
| `BufferingStream.ReaderSessions` | infra/stream/BufferingStreamReader.cpp:5-113 | Over any number of reader sessions on one buffer, what was delivered followed by the buffer is the first buffer followed by what came in; it ends early only at a session whose remainder does not fit |
| `ClaimableResource.Queued` | infra/event/ClaimableResource.cpp:68-74 | Adding a claim, urgent or not, keeps the order of service |
| `ClaimableResource.Withdrawn` | infra/event/ClaimableResource.cpp:76-79 | Withdrawing a pending claim keeps the order of service |
| `ClaimableResource.FirstComeFirstServed` | infra/event/ClaimableResource.cpp:23-33 | Of two claimers whose claims are not urgent, the one that has the resource made its claim before the one that still waits, also if claims were moved to other claimers |
| `ClaimableResource.QueuedByTicket` | infra/event/ClaimableResource.cpp:68-74 | The place of a claimer in the queue is told by its ticket: urgent ones first, the latest in front, then the others, the earliest in front |
| `ClaimableResource.GrantedBeforePending` | infra/event/ClaimableResource.cpp:23-33 | Of two tickets that are not urgent, the one that was granted was drawn before the one that is pending |
| `ClaimableResource.SubstitutedAt` | infra/event/ClaimableResource.cpp:54-66 | Replacing a claimer changes no other place of the queue |
| `ClaimableResource.ClaimableResource.ReEvaluateClaim` | infra/event/ClaimableResource.cpp:23-33 | Grants the first pending claim if the resource is free, and changes nothing else otherwise; the claimer keeps the ticket of the claim, and the flags and tickets of all claimers agree with the resource |
| `ClaimableResource.ClaimableResource.AddClaim` | infra/event/ClaimableResource.cpp:35-41 | Queues at the end, or urgently in front, and schedules a re-evaluation if the resource is free |
| `ClaimableResource.ClaimableResource.RemoveClaim` | infra/event/ClaimableResource.cpp:43-52 | Frees the resource and schedules a re-evaluation, or takes the claimer out of the queue |
| `ClaimableResource.ClaimableResource.ReplaceClaim` | infra/event/ClaimableResource.cpp:54-66 | Puts a claimer in the place of another one, as the current and as a pending one |
| `ClaimableResource.Claimer.Claim` | infra/event/ClaimableResource.hpp:100-118 | The claimer is queued with the next ticket, and stays granted if it was; a free resource with pending claims has a re-evaluation scheduled |
| `ClaimableResource.Claimer.Release` | infra/event/ClaimableResource.hpp:120-127 | Gives up the grant and keeps a pending claim, or else withdraws the pending claim |
| `ClaimableResource.Claimer.Move` | infra/event/ClaimableResource.cpp:97-107 | The new claimer has the tickets of the other one, its grant and its very place in the queue, and every other claimer keeps its place, index by index; the other one has neither |
| `ClaimableResource.Claimer.MoveFrom` | infra/event/ClaimableResource.cpp:109-124 | The same, index by index, after giving up what this claimer had |
| `ClaimableResource.Claimer.Destroy` | infra/event/ClaimableResource.cpp:126-129 | Nothing refers to a destroyed claimer |
| `Eeprom24xx.AddressIsDecoded` | drivers/eeprom/Eeprom24xx.cpp:47-50 | The device finds the address that the driver means from block bits and word address |
| `Eeprom24xx.WithinPage` | drivers/eeprom/Eeprom24xx.cpp:86-91 | A payload that does not cross a page ends up where it is addressed to, in a device that rolls over within its pages |
| `Eeprom24xx.AcrossPage` | drivers/eeprom/Eeprom24xx.cpp:86 | Any payload of up to a page, at any address: the bytes that cross the end of the page are at the start of that page |
| `Eeprom24xx.TilesInOrder` | drivers/eeprom/Eeprom24xx.cpp:75-148 | The frames of the pages carry the data, each is addressed behind the ones before it, and none crosses a page |
| `Eeprom24xx.SendsIsExpanded` | drivers/eeprom/Eeprom24xx.cpp:104-136 | What went over the bus is the frame of each page at least once, and polls with its word address behind it |
| `Eeprom24xx.PollsAreApart` | drivers/eeprom/Eeprom24xx.cpp:122-128 | No frame of a page of a tiling looks like a poll |
| `Eeprom24xx.Progress.TransferIsValid` | drivers/eeprom/Eeprom24xx.cpp:104-120 | A frame of which the device takes any part leaves each byte of the range old or new, and all others old |
| `Eeprom24xx.Progress.AllWritten` | drivers/eeprom/Eeprom24xx.cpp:112-148 | If every page was acknowledged, the memory is the old one with the data in place |
| `Eeprom24xx.Eeprom24xx.WriteBuffer` | drivers/eeprom/Eeprom24xx.cpp:21-27 | Starts a write of the buffer |
| `Eeprom24xx.Eeprom24xx.Erase` | drivers/eeprom/Eeprom24xx.cpp:39-45 | Starts a write of 0xff to the whole device |
| `Eeprom24xx.Eeprom24xx.WriteNextPage` | drivers/eeprom/Eeprom24xx.cpp:75-102 | Sends the next page, or schedules the end |
| `Eeprom24xx.Eeprom24xx.PageSent` | drivers/eeprom/Eeprom24xx.cpp:112-120 | Polls with the word address of the frame, sends the same frame again, or gives the page up and goes on to the next one |
| `Eeprom24xx.Eeprom24xx.Polled` | drivers/eeprom/Eeprom24xx.cpp:130-136 | Goes on to the next page, or polls again while the deadline has not fired; the memory does not change |
| `Eeprom24xx.Eeprom24xx.Finish` | drivers/eeprom/Eeprom24xx.cpp:60-64 | The operation is finished once |
| `Eeprom24xx.Eeprom24xx.WordAddressSent` | drivers/eeprom/Eeprom24xx.cpp:174-186 | The device reads from the address that was meant, or the chunk is given up |
| `Eeprom24xx.Eeprom24xx.ChunkReceived` | drivers/eeprom/Eeprom24xx.cpp:188-198 | The chunk is what the device holds, or erased bytes |
| `Eeprom24xx.Event` | drivers/eeprom/Eeprom24xx.cpp:92-136 | Before any callback the deadline may fire; otherwise the frame on the bus is followed by itself, by a poll or by the next page, and the log grows by what goes onto the bus |
| `Eeprom24xx.RunWrite` | drivers/eeprom/Eeprom24xx.cpp:66-148 | For any bus results, with a deadline that fires after any number of callbacks for each page anew: the write ends, finishes once, and has sent a tiling of the range, each page at least once and its polls behind it; with all pages acknowledged the data is in place |
| `Eeprom24xx.RunRead` | drivers/eeprom/Eeprom24xx.cpp:150-198 | For any bus results the read ends, finishes once, and returns the memory, or erased bytes for the chunks that failed; it failed if and only if some byte was not received |
| `Eeprom24xx.WriteAndReadBack` | drivers/eeprom/Eeprom24xx.cpp:66-198 | What was written comes back as it was if every byte was acknowledged and none failed to be received; the two results say exactly that |
| `Base64.DecodeBase64Byte` | infra/util/Base64.cpp:11-14 | The search in the table finds the sextet of a character, and 64 for any other |
| `Base64.TableIsRfc4648` | infra/util/Base64.cpp:8 | The characters of the table, letter by letter |
| `Base64.Base64Encoder.Encode` | infra/stream/OutputStream.cpp:407-427 | After any ranges, the text is the encoding of the complete groups and the begun part of the last one |
| `Base64.Base64Encoder.Finish` | infra/stream/OutputStream.cpp:388-405 | The text is the encoding of all ranges together |
| `Base64.EncodedCarries` | infra/stream/OutputStream.cpp:407-427 | The symbols of an encoding carry the bytes, six bits each, and padding follows |
| `Base64.EncodedOnwards` | infra/stream/OutputStream.cpp:446-458 | The encoding of complete groups followed by more is the encodings one after the other |
| `Base64.FromBase64` | infra/stream/InputStream.cpp:494-535 | Succeeds if and only if the text has the needed characters of the alphabet and nothing but padding in the place of padding; then the bytes are those that the text carries |
| `Base64.EncodedHolds` | infra/stream/InputStream.cpp:494-535 | The encoding of bytes is such a text for their number |
| `Base64.UnpaddedHolds` | infra/stream/InputStream.cpp:524-531 | Every encoding is accepted without its padding as well |
| `Base64.UnpaddedIsAccepted` | infra/stream/InputStream.cpp:494-535 | Two characters are decoded to the byte that their encoding of four stands for |
| `Base64.EncodeAndDecode` | infra/stream/InputStream.cpp:494-535 | Encoding any ranges and decoding into a buffer of their length gives them back, takes all of the text and succeeds |
| `Base64.Base64DecodedSize` | infra/stream/InputStream.cpp:552-562 | Three quarters of the length without the padding; for a text of padding only it reads before the text |
| `Base64.DecodedSizeFails` | infra/stream/InputStream.cpp:557 | The text is left at its front if and only if it has four or more characters and all of them are padding |
| `Base64.EncodedSize` | infra/stream/InputStream.cpp:552-562 | The decoded size of any encoding, also of nothing, is the number of bytes that were encoded |
| `Numerals.ValueOfDigits` | infra/stream/Formatter.cpp:132-134 | The digits of a number denote it, in any radix |
| `Numerals.DigitAt` | infra/stream/OutputStream.cpp:257-261 | Each digit is the quotient by the power of its place, modulo the radix |
| `Numerals.NoLeadingZero` | infra/stream/OutputStream.cpp:245-252 | The first of several digits is not zero |
| `Numerals.DigitCharacters` | infra/stream/Formatter.cpp:130 | The characters of the sixteen digits, in both cases |
| `TextOutputStream.OutputNumber` | infra/stream/OutputStream.cpp:243-306 | Prints padding, sign and the digits of the number, in each of the three radices |
| `TextOutputStream.PrintedDenotes` | infra/stream/OutputStream.cpp:243-306 | What is printed ends with the number: its sign in front of small digits that denote it, without a leading zero, and padding before that up to the width |
| `TextOutputStream.FirstMask` | infra/stream/OutputStream.cpp:245-252 | The mask is the power of the first digit, and fits 64 bits |
| `TextOutputStream.OutputDigits` | infra/stream/OutputStream.cpp:257-261 | Prints the digits, most significant first |
| `TextInputStream.TextInputStream.SkipSpaces` | infra/stream/InputStream.cpp:226-234 | Stops behind the spaces |
| `TextInputStream.TextInputStream.ReadUnsigned` | infra/stream/InputStream.cpp:304-430 | Reads the longest run of digits that the width allows, modulo the range of the type; fails if and only if there is none |
| `TextInputStream.TextInputStream.ReadSigned` | infra/stream/InputStream.cpp:268-378 | The same behind an optional sign |
| `TextInputStream.PrintAndRead` | infra/stream/InputStream.cpp:304-430 | A printed unsigned number, padded with spaces, reads back as itself, and the stream is left behind it |
| `TextInputStream.PrintAndReadSigned` | infra/stream/InputStream.cpp:268-378 | The same for all 32-bit numbers and all 64-bit numbers but the smallest |
| `TextInputStream.ReadsPrinted` | infra/stream/InputStream.cpp:226-430 | Where a reader finds padding, sign and digits of a printed number |
| `Formatter.RawFormat` | infra/stream/Formatter.cpp:71-96 | The text, filled up to the width at the side that the alignment says |
| `Formatter.AlignedLiesAt` | infra/stream/Formatter.cpp:71-96 | Where the text lies in the filling: at the front if aligned to the left or not at all, at the end to the right, and behind the smaller half if centered |
| `Formatter.RawInteger` | infra/stream/Formatter.cpp:98-143 | The sign and the digits in the radix of the type, aligned; an unknown type is an error |
| `Formatter.SignedInteger` | infra/stream/Formatter.cpp:145-149 | Prints the sign and the magnitude of a signed number |
| `Formatter.FillBuffer` | infra/stream/Formatter.cpp:130-134 | The digits are put into the buffer from its end, and a place for the sign is left in any radix |
| `Formatter.FormattedDenotes` | infra/stream/Formatter.cpp:98-143 | The characters that are written, aligned within the filling, to the right if nothing else is said, are a sign and digits that denote the number without a leading zero, in radix 16, 8, 2 or 10 by the type, and in capitals for X only |
| `Formatter.OtherTypesAreErrors` | infra/stream/Formatter.cpp:105-128 | There are no other types of number |
| `Surface.PartOfRow` | hal/interfaces/Surface.cpp:65-68 | An aligned part of a row lies within the bytes of the row |
| `Surface.BitsPerPixel` | hal/interfaces/Surface.cpp:5-27 | A pixel has the bits of the channels that its format names, and no others |
| `Surface.ValidIsLargeEnough` | hal/interfaces/Surface.cpp:101-110 | A surface with pixels is valid if and only if every bit of every pixel is in its memory and no row reaches into the next one |
| `Surface.WindowIsInside` | hal/interfaces/Surface.cpp:101-121 | The window of an aligned area in range lies inside the memory and is a valid surface |
| `Surface.SubSurfaceShowsArea` | hal/interfaces/Surface.cpp:112-121 | Every bit of the pixel at x, y of a sub-surface is in a byte of its own memory that is, in numbers, the byte of the surface for the pixel at the position of the area and x, y |
| `Surface.SubSurfaceEndsWithLastPixel` | hal/interfaces/Surface.cpp:118 | A sub-surface is as long as the byte of the last bit of its last pixel says, and no longer |
| `Surface.SubSurfacesCompose` | hal/interfaces/Surface.hpp:70-76 | A part of a part is the part at the sum of the positions |
| `Surface.PixelIsTouched` | hal/interfaces/Surface.cpp:117-118 | Every bit of every pixel of an area is in the bytes that the area touches, also with four bits per pixel |
| `Surface.DisjointAreasTouchDisjointBytes` | hal/interfaces/Surface.cpp:112-121 | Disjoint areas of a valid surface touch disjoint bytes |
| `Surface.DisjointWindows` | hal/interfaces/Surface.cpp:112-121 | The rows of the windows of disjoint areas have no byte in common |

## Left out

- EventDispatcher.ExecutesInSwapOrder: assumes sequentially consistent atomics, and that no producer fills a slot for a ticket a ring or more ahead; reservations may be further ahead; 32-bit wrap-around of the indices cannot occur, as they stay below the number of slots.
- EventDispatcherThreadAware.NoLostWakeup: the mutex and the condition variable are taken at their documented meaning; spurious wakeups are steps of the model, fairness of the scheduler is not assumed.
- EventDispatcherProgress.ExecutesHead: shows that the steps under way suffice, in one order; that a scheduler takes them is not assumed, and an action that never returns is not modelled.
- ApplicationInstaller.ApplicationInstaller.Upgrade: the hash is any function and the cipher any key stream; the slot is the flash that the start check reads; the first sector holds at least 8 bytes, the last one at least 64, and the slot is smaller than 0xff000000 bytes; both decryptors have the same key stream, and the first one is positioned at the image, as its caller in upgrade/boot_loader does.
- ApplicationInstaller.ApplicationInstaller.Copy: the scratch buffer is modelled by its size and the values that pass through it, not as memory that is refilled.
- StatusJournal.RunSafety: the erasure of the whole journal is one uninterrupted step; a half-done erasure of several sectors leaves stale entries.
- Flash.SynchronousFlash.WriteBuffer: a cut falls between two bytes; a byte is programmed as a whole.
- IntelHexPatch.PatchPreservesMeaning: addresses are unbounded numbers, so that data beyond 4 GiB or across the end of a segment is at the sum of base and offset, as in the code; records behind an end of file count, as in the code.
- Copying.Copy: a copy onto itself is element by element here; the standard leaves the case of equal begin and destination open.
- SavedMarkerStream.Session: while a gap is open, the outer stream is not written, which the nesting of the operations ensures; error policies that abort the program are not modelled, a stream that is full takes what fits.
- AtomicByteQueue.Queue.Push: the writer runs to completion between two accesses of the reader; a writer on another core sees and shows intermediate values of the write index, for which nothing is claimed.
- QueueForOneReaderOneIrqWriter.Queue.AddRangeFromInterrupt: a range that does not fit and does not wrap is excluded, as the code asserts against it or, with the read index at the start, overwrites what is unread.
- QueueForOneReaderOneIrqWriter.StreamReader.Available: PeekContiguousRange of this reader gives no clean guarantee and is not modelled.
- BufferingStream.WriterSessions: sessions whose data does not fit are excluded, as the program aborts then; `Fits` is the exact condition.
- BufferingStream.BufferingStreamWriter.Insert: data that fits neither the output nor the buffer makes the program abort and is excluded; the output is written by nobody else.
- BufferingStream.BufferingStreamReader.PeekContiguousRange: inputs answer differently when they are asked beyond their end; the answer is nothing here.
- BoundedDeque.BoundedDeque.EraseFront: the elements are a sequence with a position in the ring, not an array of slots.
- ClaimableResource.Claimer.Release: is called by a claimer that is granted or queued; a claimer is not moved onto itself.
- ClaimableResource.Claimer.Destroy: the derived claimer's callback is cleared together with the queue flag, which the code does where the object goes away or the callback is overwritten next.
- Eeprom24xx.RunWrite: the low three bits of the device address are 0; bus results arrive after the call that started the transfer; pages are those of the absolute address, which is what the device does when the page size divides the block size; the deadline of a page fires after a number of callbacks that has no bound, or the page is done before.
- Base64.Base64DecodedSize: what the code finds in front of a text of padding only is not modelled; the result is nothing then.
- Surface.WindowIsInside: sizes are unbounded numbers here, which a 64-bit size type holds; zero-sized areas are left out.
- TextInputStream.PrintAndReadSigned: the smallest 64-bit number cannot be negated by the printing code, and is excluded there and in the formatter.
- Floating point numbers, hexadecimal byte strings and the parsing of format strings: easy or without a clean guarantee.
- UARTs, sockets, file systems, registers, displays, generated protocol code, SHA-256, AES and ECDSA: hardware, tables, or used here only through what is assumed of them.
- upgrade/pack and the rest of the boot sequence: loading and signature checks of packs are not part of this model.

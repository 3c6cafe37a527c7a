# SphereWare and its host tools: a verified model

SphereWare is the firmware of the AlphaSphere, a musical instrument with 48 pressure pads, two dials
and a colour LED. It talks to a computer over USB with the LUFA library, and a HID bootloader with a
small host program replaces the firmware. This project models the parts of that code in which several
functions, loops or threads of control have to fit together, and proves what they achieve together.

Code that works by updating arrays and fields is a class whose methods update the same arrays and
fields; each method is proved against a function of the state before it, and the theorems are about runs
of those functions: every interleaving, every sequence of messages, every file.

| file | what it covers |
|---|---|
| `Ring.dfy` | the byte ring buffer of LUFA, used by one thread, and by a producer and a consumer whose statements interleave freely |
| `Descriptors.dfy` | the walk over a USB configuration descriptor (section 9.5 of the USB 2.0 specification) |
| `IntelHex.dfy`, `HexMeaning.dfy`, `HexWriter.dfy` | the hex file reader, what an accepted file means by the Intel Hexadecimal Object File Format (Specification Rev. A), and a writer with the round trips |
| `Bootloader.dfy`, `Update.dfy` | the device and the host side of a firmware update, and the update end to end |
| `PadScan.dfy`, `PadLaws.dfy`, `PadNumbers.dfy`, `PadRounds.dfy` | the pad scan and the standby interrupt as one state machine, with its invariants, what its steps mean in numbers, number ranges and rounds |
| `PadVisits.dfy` | the events of a visit and of a round, as the hardware gives them, and what they decide for each pad |
| `Sorting.dfy`, `Firmware.dfy` | the sort of the pads, and the firmware's arrays with the code that scans, calibrates and sorts them, interrupts included |
| `HidReport.dfy`, `PadReports.dfy`, `Encoder.dfy` | the input report with pads, MIDI queue and dials; what the host sees of the pads; the rotary encoders, from the pins to the host's totals |
| `Led.dfy`, `LedControl.dfy`, `LedDriver.dfy`, `LedLaws.dfy` | scaling, blending and fading within the current budget; the two clocks; the code that stores colours and shifts packets out; what the LED shows for every pressure and message |
| `Bytes.dfy` | bytes, options, 16-bit range |

## Assumptions

- The read-modify-write of a pad's threshold in the main loop is atomic. Two of them run with interrupts
  on (`SphereWare/SphereWare.c:317-320` and `366-369`), so on the device this needs care.
- The calibration at start-up is over within 20000 timer interrupts. Interrupts that come in during it count as
  idle ticks. Interrupts during a later calibration come in before its readings are stored, which loses no
  interleaving (`ResetHoldsOffStandby`).
- The LED phase at the end of a scan is one step, and no message from the interrupt changes the colours in
  the middle of it.
- LED arithmetic is over `real`, with truncation where C converts to an integer. A value that does not fit
  `int8_t` wraps round.
- ADC readings, pin samples, USB packets, the byte behind the report buffer and the contents of unassigned
  variables are parameters that can be anything.

## Where the code differs from what one expects of it

Each of these is a proved lemma; where a line says exactly, both directions are proved.

- A firmware update is faithful for every file on parts below 64K. On 64K parts every page lands in the first
  one, because the host sends units of 256 bytes and the device reads bytes, so an update is faithful exactly
  when the file stays within the first page. On 128K parts the block from 0xFF00 to 0xFFFF of the image is
  always sent as 0xFF (`PageAddressArrivesIff`, `FaithfulIffDeliverable`).
- The bound check of the hex reader is computed in 32 bits and can wrap, but only under the extended linear
  address 0xFFFF (`BoundCheckExact`). Once a base of 64K or more is set no further record is accepted, an end
  record included (`HighBaseIsFinal`).
- The record type is not protected by the checksum: a data record whose type byte reads otherwise is accepted
  and dropped, and with type 1 it ends the file (`WrongTypeIsAccepted`).
- A descriptor of length zero stops the walk from moving, and a search from ending unless it meets a hit before
  (`SearchEndsIff`). The search with a comparator also looks at the memory behind the chain, and its answer there
  counts (`CompareDecidesAtFirst`).
- A calibration that finds no DAC code keeps the adjustments in force at that moment as part of the threshold
  (`FailedCalibrationDrifts`).
- The differential thresholds of pads 40 to 47, which nobody reads, gain 100 with every reset in standby
  (`UnusedThresholdsDrift`). They overflow when standby begins after the button has ended it 327 times, and
  nothing else in the scan ever overflows (`NumericSafety`, with a run in `StandbyResetsOverflow`).
- On the visit on which the reset button recalibrates, the pad was latched before, so the code set belongs to
  another place of the order; on every other visit it is the pad's own (`ScanRound`).
- A negative differential reading is one above its two's complement value (`AdcRange`).
- Pad 31 has a byte in each half of the report, and is read consistently exactly if the upper bits of its
  pressure did not change between the halves (`Pad31ConsistentIff`). A calibration does not clear the upper byte
  of pad 47, so the host sees a leftover of its pressure until the next visit (`HostSeesPads`).
- The LED phase sends channels that were never assigned exactly when the pressure sum jumps from nothing to the
  second stage within one scan (`GarbageIff`, reached in `GarbageReachable`).
- The dial's account at the host is exact throughout exactly if the turns between second halves fit a signed byte
  (`DialExactIff`).
- Under the host's clock the fade step goes on falling after it has reached zero and in the end wraps round, if
  and only if the tempo is at least 25 (`SilentHostWrapsIff`). The step exceeds 100 exactly if a wrapped value
  does (`FadeAtMost100`), and the LED's budget can be exceeded exactly when such a step is applied
  (`PhaseBudgetIff`, `BudgetBrokenIff`, with a run in `FadeWrapBreaksBudget`).

## Model

| member | source | states |
|---|---|---|
| Ring.InsertAppends | LUFA/Drivers/Misc/RingBuffer.h:236-251 | the statements of an insert, taken together, append the byte to the stored sequence and leave In, Out and Count in agreement |
| Ring.RemoveTakesOldest | LUFA/Drivers/Misc/RingBuffer.h:264-281 | the statements of a remove take away exactly the oldest stored byte |
| Ring.RingBuffer.InitBuffer | LUFA/Drivers/Misc/RingBuffer.h:131-146 | an initialised buffer is valid and holds nothing |
| Ring.RingBuffer.GetCount | LUFA/Drivers/Misc/RingBuffer.h:163-174 | the count is the number of stored bytes |
| Ring.RingBuffer.IsFull | LUFA/Drivers/Misc/RingBuffer.h:221-224 | true exactly if as many bytes are stored as the array has |
| Ring.RingBuffer.IsEmpty | LUFA/Drivers/Misc/RingBuffer.h:207-210 | true exactly if no byte is stored |
| Ring.RingBuffer.Insert | LUFA/Drivers/Misc/RingBuffer.h:236-251 | the stored bytes are those before followed by the new one |
| Ring.RingBuffer.Remove | LUFA/Drivers/Misc/RingBuffer.h:264-281 | returns the first of the stored bytes and leaves the others in order |
| Ring.RingBuffer.Peek | LUFA/Drivers/Misc/RingBuffer.h:290-293 | returns the byte that a remove would return and changes nothing |
| Ring.SlotAfter | LUFA/Drivers/Misc/RingBuffer.h:241-244 | stepping the pointer one by one with its wrap leads to the slot that far ahead, up to a whole turn |
| Ring.StoreMissesUnread | LUFA/Drivers/Misc/RingBuffer.h:236-240 | a store never hits the slot of a byte that is still to be read |
| Ring.StepKeepsInv | LUFA/Drivers/Misc/RingBuffer.h:236-281 | every single statement of either thread, with only the count update atomic, keeps the bookkeeping, the prefix property and every unread byte |
| Ring.EveryInterleavingIsFifo | LUFA/Drivers/Misc/RingBuffer.h:236-281 | for every interleaving of inserts and removes that start after seeing space or data: what came out is a prefix of what went in, the count stays within the size, a count once seen stays good, and between calls the buffer holds the rest |
| Ring.NoUnreadByteIsOverwritten | LUFA/Drivers/Misc/RingBuffer.h:236-251 | in no reachable state does an insert overwrite an unread byte or store outside the array |
| Descriptors.SkipStuckIffEmptyDescriptor | LUFA/Drivers/USB/Core/ConfigDescriptors.h:266-276 | a move keeps position plus remaining bytes, and fails to move exactly on a descriptor of length zero |
| Descriptors.ConfigWalker.NextDescriptor | LUFA/Drivers/USB/Core/ConfigDescriptors.h:266-276 | the position advances by the length byte it stands on, or by all that remains if that is less, and what remains goes down by as much |
| Descriptors.SearchEndsIff | LUFA/Drivers/USB/Core/ConfigDescriptors.c:74-145 | the loop of a search ends exactly if it meets no empty descriptor before a hit, unless that descriptor is itself the hit |
| Descriptors.ClearIff | LUFA/Drivers/USB/Core/ConfigDescriptors.c:74-145 | in terms of the chain: a descriptor reached by moves is a hit, or the chain has no empty descriptor, or the current one is empty and a hit |
| Descriptors.ConfigWalker.NextOfType | LUFA/Drivers/USB/Core/ConfigDescriptors.c:74-85 | for every chain on which its loop ends, the loop computes the search for a type and keeps position plus remaining bytes |
| Descriptors.OfTypeFindsFirst | LUFA/Drivers/USB/Core/ConfigDescriptors.c:74-85 | that search ends on the first descriptor of the type after the current one, or at the end of the chain if there is none; from an empty descriptor it does not move |
| Descriptors.ConfigWalker.NextOfTypeBefore | LUFA/Drivers/USB/Core/ConfigDescriptors.c:87-106 | for every chain on which its loop ends, the loop computes the search with a barrier; the sum is kept unless the remaining bytes are zeroed |
| Descriptors.OfTypeBeforeFindsFirst | LUFA/Drivers/USB/Core/ConfigDescriptors.c:87-106 | whichever of type and barrier comes first decides: the type is found, the barrier ends the walk where it stands with nothing left |
| Descriptors.ConfigWalker.NextOfTypeAfter | LUFA/Drivers/USB/Core/ConfigDescriptors.c:108-117 | for every chain on which both loops end, the method is the composition of two searches |
| Descriptors.OfTypeAfterFindsFirst | LUFA/Drivers/USB/Core/ConfigDescriptors.c:108-117 | it ends on the first descriptor of the type after the first marker, or at the end if either is missing |
| Descriptors.ConfigWalker.NextComp | LUFA/Drivers/USB/Core/ConfigDescriptors.c:119-145 | for every chain on which it ends, the loop with the comparator, its saved position and its return code |
| Descriptors.CompareDecidesAtFirst | LUFA/Drivers/USB/Core/ConfigDescriptors.c:119-145 | the first descriptor the comparator decides on gives the answer; after a Fail one move leads back to that descriptor; if none decides the memory at the end is asked as well |
| Descriptors.EndOfDescriptorIff | LUFA/Drivers/USB/Core/ConfigDescriptors.h:136-150 | the end code is returned exactly if no descriptor, and no memory at the end, made the comparator decide |
| Descriptors.MoveOverFirst | LUFA/Drivers/USB/Core/ConfigDescriptors.h:266-276 | on memory that is written as descriptors one behind the other, each with its own length first, a move leads from the first to the second |
| Descriptors.ChainFollows | LUFA/Drivers/USB/Core/ConfigDescriptors.c:74-145 | on such a chain the descriptors to follow start at the sums of the lengths before them, and nowhere else |
| Descriptors.ChainOfType | LUFA/Drivers/USB/Core/ConfigDescriptors.c:74-85 | the search for a type ends on the first descriptor behind the first whose second byte is the type, or at the end of the chain |
| Descriptors.ChainOfTypeBefore | LUFA/Drivers/USB/Core/ConfigDescriptors.c:87-106 | with a barrier, the type is found exactly if it comes before the first descriptor of the barrier type |
| IntelHex.BoundCheckExact | Bootloader/HostLoaderApp/hid_bootloader_cli.c:832 | the bound check keeps all stores of a record inside the arrays exactly if the 32-bit sum does not wrap, and it can wrap only under extended linear address 0xFFFF |
| IntelHex.DigitValues | Bootloader/HostLoaderApp/hid_bootloader_cli.c:823-834 | a hex digit has the value of its place among the sixteen, in upper and in lower case |
| IntelHex.HexImage.StorePayload | Bootloader/HostLoaderApp/hid_bootloader_cli.c:861-870 | the loop stores the payload bytes and their mask one by one, stops at the first pair that is no number, and sums what it stored |
| IntelHex.HexImage.ParseData | Bootloader/HostLoaderApp/hid_bootloader_cli.c:860-873 | a data record counts its bytes, is stored, and is accepted if complete and matching its checksum |
| IntelHex.HexImage.ParseNonData | Bootloader/HostLoaderApp/hid_bootloader_cli.c:835-859 | end and base address records change only the end flag or the base, and none is an error |
| IntelHex.HexImage.ParseHexLine | Bootloader/HostLoaderApp/hid_bootloader_cli.c:814-874 | verdict, control variables and both arrays after any line are those of the line's digest |
| IntelHex.HexImage.Reset | Bootloader/HostLoaderApp/hid_bootloader_cli.c:774-780 | before a file the image is 0xFF, the mask 0 and the counters zero |
| IntelHex.HexImage.ReadIntelHex | Bootloader/HostLoaderApp/hid_bootloader_cli.c:768-803 | the text is read as fgets delivers it; the result and the arrays are those of the lines up to the first rejected one or the end record, with the three outcomes of the original |
| HexMeaning.BaseIsMode | Bootloader/HostLoaderApp/hid_bootloader_cli.c:840-857 | the one base variable stands for the format's segmented and linear addressing modes |
| HexMeaning.AcceptedAddresses | Bootloader/HostLoaderApp/hid_bootloader_cli.c:832-866 | every byte of an accepted data record is stored at the address the file format assigns to it, below the top of the image |
| HexMeaning.MemoryShowsWrites | Bootloader/HostLoaderApp/hid_bootloader_cli.c:860-870 | image and mask are the last-writer-wins fold of the data records, 0xFF and 0 elsewhere |
| HexMeaning.ValueIsLastWriter | Bootloader/HostLoaderApp/hid_bootloader_cli.c:861-866 | the value of an address in that fold is the byte of the last record that covers it |
| HexMeaning.LoadedFileMeansItsRecords | Bootloader/HostLoaderApp/hid_bootloader_cli.c:768-874 | every accepted file leaves exactly its data records in the arrays, and their summed length as byte count |
| HexMeaning.HighBaseIsFinal | Bootloader/HostLoaderApp/hid_bootloader_cli.c:832-839 | with a base of 64K up to 0xFFFE0000 every line is rejected and changes nothing, end records included |
| HexMeaning.CountVersusCovered | Bootloader/HostLoaderApp/hid_bootloader_cli.c:860 | the summed length is at least the number of covered addresses, and equals it exactly if no two records overlap |
| HexMeaning.ByteCountMeaning | Bootloader/HostLoaderApp/hid_bootloader_cli.c:860-870 | on success the byte count is at least the number of masked bytes, with equality exactly for pairwise disjoint records |
| HexMeaning.DataLineAcceptedIff | Bootloader/HostLoaderApp/hid_bootloader_cli.c:832-873 | a complete data line is accepted exactly if it stays below the top of the image and all its bytes add up to zero modulo 256 |
| HexMeaning.OneWrongByteIsRejected | Bootloader/HostLoaderApp/hid_bootloader_cli.c:834-873 | changing any one address, payload or checksum byte of an accepted data line, of any length, makes it rejected |
| HexMeaning.WrongTypeIsAccepted | Bootloader/HostLoaderApp/hid_bootloader_cli.c:834-859 | changing the type byte of an accepted data line is never noticed |
| HexMeaning.UnreadableIff | Bootloader/HostLoaderApp/hid_bootloader_cli.c:823-832 | a line that is not empty is rejected unread exactly if it lacks the colon, a hex digit where length, address and type begin, or the room its length claims; then it changes nothing |
| HexMeaning.KindOfLine | Bootloader/HostLoaderApp/hid_bootloader_cli.c:835-859 | a complete line of type 2 or 4 sets the base its two bytes spell exactly if it has two and all its bytes add up to zero modulo 256; type 1 ends the file whatever it holds; all other types are passed over |
| HexWriter.ChunksOfLines | Bootloader/HostLoaderApp/hid_bootloader_cli.c:773-789 | a text of lines that fit the buffer is delivered by fgets line by line |
| HexWriter.RenderThenParse | Bootloader/HostLoaderApp/hid_bootloader_cli.c:814-874 | any record, written as a line and parsed, is that record, whatever ends the line |
| HexWriter.WriteThenRead | Bootloader/HostLoaderApp/hid_bootloader_cli.c:768-874 | a written text, with either line end, is accepted exactly if every record fits below the top of the image, and is then read to its end as the same records |
| HexWriter.ImageRoundTrip | Bootloader/HostLoaderApp/hid_bootloader_cli.c:768-874 | any image below the top of memory, written as text at any line width with either line end and read back, is itself, with everything else erased and its length as byte count |
| Bootloader.AndErased | Bootloader/BootloaderHID.c:193-213 | programming over erased flash stores the byte itself |
| Bootloader.DataIndexInverts | Bootloader/BootloaderHID.c:196-210 | filling word after word from any address reaches each place of the page buffer by exactly one word |
| Bootloader.EraseFillWrite | Bootloader/BootloaderHID.c:190-213 | erase, fill and write leave the report's data in the page whatever the flash held before |
| Bootloader.Device.PageErase | Bootloader/BootloaderHID.c:190-194 | the addressed page, and nothing else, becomes 0xFF |
| Bootloader.Device.PageWrite | Bootloader/BootloaderHID.c:211-213 | the addressed page is and-ed with the buffer, the rest stays |
| Bootloader.Device.ReadWord | Bootloader/BootloaderHID.c:205-207 | a word is the next two bytes of the packets taken as one stream |
| Bootloader.Device.FillPage | Bootloader/BootloaderHID.c:196-210 | however the data is split into packets, the buffer ends up with all of its words |
| Bootloader.Device.ControlRequest | Bootloader/BootloaderHID.c:154-221 | a report of at least a page programs the page it names with its data, the start command of any length ends the bootloader, any other request changes nothing |
| Update.EveryPackingIsACut | Bootloader/BootloaderHID.c:198-204 | every way to send a report in non-empty even-sized packets is one that the host loop is proved for |
| Update.Loader.WithinRange | Bootloader/HostLoaderApp/hid_bootloader_cli.c:876-888 | true exactly if the range lies in the image and some byte of it is masked |
| Update.Loader.GetBytes | Bootloader/HostLoaderApp/hid_bootloader_cli.c:890-908 | the block is the image where the mask is set and 0xFF elsewhere, and all 0xFF for a block that touches the top |
| Update.Loader.SendBlock | Bootloader/HostLoaderApp/hid_bootloader_cli.c:152-163 | one sent block programs the page its address arrives at with the block's bytes |
| Update.Loader.Program | Bootloader/HostLoaderApp/hid_bootloader_cli.c:146-165 | the loop over all blocks gives the flash of the specification, and the bootloader keeps running |
| Update.PageCommandNotStart | Bootloader/BootloaderHID.h:55 | no page frame on any supported part is the start command |
| Update.PageAddressArrivesIff | Bootloader/HostLoaderApp/hid_bootloader_cli.c:153-159 | the page address the device computes is the host's exactly on parts other than 64K, or for page 0 |
| Update.FlashByBlock | Bootloader/HostLoaderApp/hid_bootloader_cli.c:146-165 | where addresses arrive, each byte of flash is decided by its own block alone |
| Update.SmallPartsFaithful | Bootloader/HostLoaderApp/hid_bootloader_cli.c:146-165 | below 64K: every covered address holds its last record's byte, uncovered ones in sent pages 0xFF, skipped pages are untouched and had no file bytes |
| Update.LargePartFaithfulIff | Bootloader/HostLoaderApp/hid_bootloader_cli.c:894-899 | on 128K parts that fails exactly for bytes other than 0xFF in the last block of the image |
| Update.OnlyFirstPage | Bootloader/BootloaderHID.c:172-177 | on 64K parts no page but the first ever changes |
| Update.SixtyFourKFaithfulIff | Bootloader/BootloaderHID.c:172-177 | on 64K parts an update can be relied on exactly if the file stays within the first page |
| Update.FaithfulIffDeliverable | Bootloader/HostLoaderApp/hid_bootloader_cli.c:981-996 | on every supported part, an update is faithful whatever the flash held exactly for the files within the part's limits |
| Update.UpdateFirmware | Bootloader/HostLoaderApp/hid_bootloader_cli.c:128-176 | file to flash to reboot: the answer is CannotOpen exactly without a file, and otherwise loaded, rejected or undefined exactly as the lines of the file are; a refused file leaves the flash alone; an accepted one leaves exactly the specified flash, faithful to the file if it is deliverable, for any packet size; the bootloader goes on running exactly if no reboot was asked for or the file was refused |
| Update.UpdateWithImage | Bootloader/HostLoaderApp/hid_bootloader_cli.c:128-176 | end to end without the reader: any image within the limits of the part, written as text at any line width with either line end, is loaded in full, is then the beginning of the flash as far as the code area goes, and the bootloader runs on exactly if no reboot was asked for |
| Update.StartApplication | Bootloader/HostLoaderApp/hid_bootloader_cli.c:168-174 | the reboot frame ends the bootloader and programs nothing |
| PadScan.StepConserves | SphereWare/SphereWare.c:129-427 | every step of the main loop or the interrupt changes a threshold by exactly what it changes in the flags; a calibration leaves no adjustment |
| PadScan.ThresholdConservation | SphereWare/SphereWare.c:129-427 | in every reachable state a threshold is its last calibrated value plus 100 in standby, plus 50 under the anti-sticky adjustment, less 35 or 25 while the velocity is sent; single-ended ones plus 10 under hysteresis; the flags agree and the sticky count is at most 10 |
| PadScan.FailedCalibrationDrifts | SphereWare/SphereWare.c:91-107 | a calibration starts afresh exactly for pads with a DAC code; for the others the adjustments in force become part of the base |
| PadScan.RunKeepsInv | SphereWare/SphereWare.c:129-427 | in every reachable state flags, filter values, the loop's position and the LED sum agree for every pad |
| PadScan.IdleIsStreak | SphereWare/SphereWare.c:133-177 | the idle count is the number of idle ticks in a row, those of the start-up calibration included, modulo 20001 |
| PadScan.RaisedOnlyAfterIdle | SphereWare/SphereWare.c:141-155 | thresholds are raised only by a tick that ends at least 20001 idle ticks in a row |
| PadScan.HeldPadKeepsStandbyOff | SphereWare/SphereWare.c:136-172 | while any pad is held no tick raises the thresholds or leaves them raised, except between the two halves of the pad's own report |
| PadScan.QuietReachesStandby | SphereWare/SphereWare.c:141-155 | from any state, 20001 idle ticks without a calibration reach the raised state whatever else happens |
| PadScan.ResetHoldsOffStandby | SphereWare/SphereWare.c:252-267 | in every reachable calibration, ticks that find the thresholds and the order half rewritten only reset the idle count, so taking the calibration as one step loses no interleaving |
| PadScan.ReportsAlternate | SphereWare/SphereWare.c:291-370 | between calibrations the press and release reports of a pad strictly alternate, press first |
| PadScan.BandIsHysterisis | SphereWare/SphereWare.c:317-320 | the release threshold is exactly the hysteresis below the press threshold, and both move only with standby and anti-sticky |
| PadScan.NoChatter | SphereWare/SphereWare.c:288-370 | readings confined to that band, over any run without calibration, press and release nothing |
| PadLaws.CalibratedThresholds | SphereWare/SphereWare.c:91-113 | after a calibration the press threshold is 120 above the reading for pads 0 to 7, 105 for 8 to 39, the release threshold 35 below it for pads 0 to 15, 25 for 16 to 39, and the others' is 40 below their reading |
| PadLaws.Amounts | SphereWare/SphereWare.c:129-170 | the adjustments amount to 100 in standby, 50 for a sticky pad, 35 or 25 while it is held, 10 for a touched one |
| PadLaws.PlayedKeepsAwake | SphereWare/SphereWare.c:133-170 | a tick that finds any pad or control in use ends standby and the idle count |
| PadLaws.StandbyTime | SphereWare/SphereWare.c:141-155 | standby comes after 20001 idle ticks, no fewer, and no more unless a calibration comes |
| PadLaws.CalibratedAfresh | SphereWare/SphereWare.c:80-126 | a calibration lets go of all pads and controls and empties the filters; the sticky counts stay, and so do the place in the round, the idle count and the LED sum |
| PadLaws.PressIff | SphereWare/SphereWare.c:288-294 | a pad that is not held begins a press exactly if its reading exceeds the threshold, with the excess as first value; otherwise nothing changes |
| PadLaws.ReleaseIff | SphereWare/SphereWare.c:322-370 | a held pad is released exactly if its reading does not exceed the threshold |
| PadLaws.TouchIff | SphereWare/SphereWare.c:375-410 | a pad from 40 on is touched exactly if its reading is below the threshold, which moves by 10 when a touch begins or ends |
| PadLaws.HeldFilter | SphereWare/SphereWare.c:324-345 | the filter of a held pad goes half-way to the pressure and not beyond it, to 511 exactly if that is half-way or nearer; then, unless it is in force, the threshold is raised by 50 |
| PadLaws.TouchedFilter | SphereWare/SphereWare.c:384-402 | the filter of a touched pad does the same with twice the excess, and enters the LED sum |
| PadLaws.HalvingsDivide | SphereWare/SphereWare.c:324-337 | the halvings by which the next two count are a division by a power of two |
| PadLaws.FilterSettles | SphereWare/SphereWare.c:322-345 | over any run without calibration in which a held pad always reads the same above its threshold, its filter is after k visits within one plus the first distance divided by 2^k of that value, at most 511, and the pad stays held |
| PadLaws.TouchSettles | SphereWare/SphereWare.c:384-402 | the same for a touched pad and twice the excess |
| PadLaws.PeakIsLargest | SphereWare/SphereWare.c:293-312 | in every reachable state of an attack the peak is the largest of the values read, the first one included, and the velocity reported after 201 of them is half of it, at most 127 |
| PadLaws.AttackEnds | SphereWare/SphereWare.c:309-320 | when an attack is over the pad is held, its filter and the LED sum have the velocity, and the threshold is 35 or 25 lower |
| PadLaws.LedSumIsPressure | SphereWare/SphereWare.c:310-402 | in every reachable state the LED sum is the sum of the filtered pressures that the round has reported |
| PadLaws.StickyCounts | SphereWare/SphereWare.c:350-363 | the sticky count of a pad is the number of its releases under the anti-sticky adjustment, modulo 11, over calibrations too |
| PadLaws.EleventhReleaseLifts | SphereWare/SphereWare.c:350-363 | such a release lifts the adjustment exactly if it is an eleventh one |
| PadNumbers.AdcRange | SphereWare/ADC.c:103-110 | differential readings lie in -511..511 and are the ten bits, or one above their two's complement if the highest is set; single-ended ones are the ten bits |
| PadNumbers.NumericSafetyIff | SphereWare/SphereWare.c:129-172 | over every run with readings of the converter, from any start: no 16-bit expression overflows exactly if, whenever the thresholds are raised, those of pads 40 to 47 have room for one more than the resets in standby |
| PadNumbers.NumericSafety | SphereWare/SphereWare.c:129-427 | from start-up: no 16-bit expression of the scan or the interrupt ever overflows exactly if standby never begins after the reset button has ended it 327 times |
| PadNumbers.StandbyResetsOverflow | SphereWare/SphereWare.c:149-152 | from every start there is such a run, with possible readings, that overflows |
| PadNumbers.PressureSafety | SphereWare/SphereWare.c:286-459 | over every run filter values stay in 0..511 and the doubled LED sum fits 16 bits |
| PadNumbers.UnusedThresholdsDrift | SphereWare/SphereWare.c:149-152 | the unused thresholds of pads 40 to 47 are their start value plus 100 for every reset in standby, plus 100 in standby, as long as this fits 16 bits; NumericSafetyIff says how long |
| PadRounds.RoundFollowsOrder | SphereWare/SphereWare.c:246-273 | at any point of a round without calibration, the pads visited so far are the scan order up to there, whatever the readings and interrupts |
| PadRounds.FullRound | SphereWare/SphereWare.c:246-273 | a finished round has latched 48 pads, and without a calibration in it every pad exactly once; the codes set for them are in the rows of the scanner |
| Sorting.SwapKeepsTogether | SphereWare/SphereWare.c:66-75 | exchanging both entries keeps every pad with its code and ties in pad order |
| Sorting.Pass | SphereWare/SphereWare.c:64-76 | one pass of the inner loop brings the largest remaining code to its place |
| Sorting.BubbleSort | SphereWare/SphereWare.c:58-78 | afterwards codes are non-decreasing with ties in pad order, every pad has its own code, the order is a permutation and the tail is unchanged |
| Firmware.FirstCodeIsFirst | SphereWare/SphereWare.c:91-107 | the search finds the first DAC code whose reading exceeds -400, or none exactly if there is none |
| Firmware.CodeFound | SphereWare/SphereWare.c:85-108 | the code of a pad is the first that brings its reading above -400 and its threshold 120 or 105 above that reading; without such a code the code is zero and the threshold stays |
| Firmware.EachPadOnce | SphereWare/SphereWare.c:246-250 | after calibration and sort each pad stands at exactly one place of the order |
| Firmware.StartInRange | SphereWare/SphereWare.c:91-115 | readings within the range of the converter, calibrated at start-up, give the thresholds the range that the safety results start from |
| Firmware.Scanner.constructor | SphereWare/SphereWare.c:224-240 | after start-up all flags are clear, the idle count is that of the ticks during the calibration, the state is an initial one, the order is ready for scanning and the thresholds are in range |
| Firmware.Scanner.TimerInterrupt | SphereWare/SphereWare.c:129-172 | the interrupt's loops over pads and controls make the tick step |
| Firmware.Scanner.SearchPad | SphereWare/SphereWare.c:85-108 | the code, threshold and order entry of one pad are those of the first suitable DAC code, or kept and zero |
| Firmware.Scanner.Measure | SphereWare/SphereWare.c:80-124 | all readings and clearings of a calibration together make the calibrated state |
| Firmware.Scanner.Calibrate | SphereWare/SphereWare.c:80-126 | afterwards every entry of the order has the first DAC code of its pad, sorted by code and pad number, pads from 40 on are in place, and the state is the calibrated one |
| Firmware.Scanner.Recalibrate | SphereWare/SphereWare.c:252-266 | a calibration after the reset button is the step of the machine and leaves order and codes ready |
| Firmware.Scanner.Reset | SphereWare/SphereWare.c:252-268 | the button found down: marked as played, standby left, all calibrated from the given readings, with the given interrupts in between and nothing else |
| Firmware.Scanner.FirstReading | SphereWare/SphereWare.c:288-348 | the first reading of a pad below 40 makes the visit step, filter and anti-sticky adjustment included |
| Firmware.Scanner.SampleAttack | SphereWare/SphereWare.c:295-304 | the 200 samples are the readings of the converter in their order, with the given interrupts before each, and leave the peak |
| Firmware.Scanner.CommitAttack | SphereWare/SphereWare.c:314-320 | the second half of a press makes its step: velocity sent, filter and LED sum set, threshold lowered |
| Firmware.Scanner.MarkRelease | SphereWare/SphereWare.c:350-363 | the first half of a release makes its step, counting and lifting the anti-sticky adjustment |
| Firmware.Scanner.CommitRelease | SphereWare/SphereWare.c:365-369 | the second half of a release makes its step |
| Firmware.Scanner.FirstReadingSe | SphereWare/SphereWare.c:375-410 | the reading of a pad from 40 on makes the visit step with its hysteresis |
| Firmware.Scanner.MarkTouch | SphereWare/SphereWare.c:384-402 | the report of a touched pad makes its step |
| Firmware.Scanner.VisitPad | SphereWare/SphereWare.c:286-371 | a whole visit of a pad below 40: its events are the first reading of the converter, the samples or reports that this reading calls for at the threshold of the moment, and the given interrupts |
| Firmware.Scanner.VisitPadSe | SphereWare/SphereWare.c:372-427 | the same for a pad from 40 on |
| Firmware.Scanner.Visiting | SphereWare/SphereWare.c:246-427 | one visit: the pad of the order is latched, the button looked at, the code of its place as it then stands set, the five controls read and the pad scanned; the events are exactly those that the surroundings give |
| Firmware.Scanner.ScanRound | SphereWare/SphereWare.c:244-428 | a round is 48 such visits, and hands its pressure sum to the LED phase; order and codes stay those of the last calibration; on every visit without a reset the code set for a pad below 40 is the one that calibration found for it; without any reset every pad is visited exactly once, and in the end is played exactly if the first reading of its visit was beyond its threshold; without interrupts too, beyond the threshold at the start of the round, with its pressure as the readings say |
| PadVisits.Begun | SphereWare/SphereWare.c:246-284 | up to its first reading a visit without a reset changes nothing of any pad but what interrupts do to thresholds, and comes to the pad whose turn it is |
| PadVisits.PadVisited | SphereWare/SphereWare.c:286-427 | whatever the interrupts, afterwards the pad is played, and held, exactly if the first reading was beyond the threshold it met; a held pad's filter has gone half-way to the pressure, a touched one's half-way to twice the excess; without interrupts a press starts at half the largest of the 201 readings above the threshold, at most 127; other pads keep all but what interrupts change, and the sum grows by the pressure of a played pad |
| PadVisits.VisitWithoutReset | SphereWare/SphereWare.c:246-427 | the same from latch to end, in terms of the state before the latch |
| PadVisits.RoundDecides | SphereWare/SphereWare.c:244-428 | over a whole round without a reset: what its own visit decides for a pad is still so at the end, whatever interrupts come |
| PadVisits.StillRoundDecides | SphereWare/SphereWare.c:244-428 | without interrupts it is the thresholds and filters at the start of the round that decide for every pad |
| HidReport.HidBuffer.WritePadData | SphereWare/GenericHID.c:96-102 | the two bytes of the pad are set as the event says and nothing else |
| HidReport.HidBuffer.WritePressureOnly | SphereWare/GenericHID.c:104-110 | the pressure bits change and the velocity bits stay |
| HidReport.HidBuffer.AdjustDial | SphereWare/GenericHID.c:127-132 | the dial's byte moves by the amount modulo 256 |
| HidReport.HidBuffer.ClearPads | SphereWare/GenericHID.c:134-137 | bytes 1 to 95 become zero, byte 96 does not |
| HidReport.HidBuffer.WriteMidiData | SphereWare/GenericHID.c:249-266 | the message goes behind those queued and the count up by one, or nothing happens if seven are queued |
| HidReport.HidBuffer.SendHalf | SphereWare/GenericHID.c:37-71 | the packet is the half whose turn it is; after a second half, buttons, dials and queue are cleared |
| HidReport.WriteThenDecode | Utilities/hid-monitor/hid-monitor.py:84-88 | the host decodes a written pad to its nine-bit pressure and velocity, and every other pad as before |
| HidReport.PadsRefineTable | SphereWare/GenericHID.c:96-137 | over any sequence of writes and sends, the decoded report is a table with each pad's last pressure and the velocity of its last full write |
| HidReport.PadsLeaveRest | SphereWare/GenericHID.c:96-137 | no write to a pad disturbs the buttons, the dials or the MIDI queue |
| HidReport.TornReport | SphereWare/GenericHID.c:42-45 | a report put together from halves of different times shows each pad as it was at its half, except pad 31, which mixes both |
| HidReport.Pad31ConsistentIff | SphereWare/GenericHID.c:42-45 | pad 31 is read as at the first half exactly if the upper bits of its pressure are the same at the second |
| HidReport.HostSeesButtons | SphereWare/GenericHID.c:119-123 | a second half brings the host the buttons written last since the one before it, or none |
| HidReport.MidiConservation | SphereWare/GenericHID.c:37-71 | over any run, the messages in the second halves sent, then those waiting, are the accepted arrivals in order, each once; byte 100 is the number waiting; only what comes after seven since the last second half is dropped |
| HidReport.DialConservation | SphereWare/GenericHID.c:54-63 | the host's total and the pending byte agree with all that was turned modulo 256, and are equal to it whenever the turns between second halves have fitted a signed byte |
| HidReport.DialExactIff | SphereWare/GenericHID.c:54-63 | the account of the host is exact throughout a run if and only if the turns between second halves always fit a signed byte |
| PadReports.TableShowsScan | SphereWare/SphereWare.c:309-427 | in every state of the scan the reported table is the scanner's state, with the two known offsets within a visit |
| PadReports.HostSeesPads | SphereWare/SphereWare.c:309-427 | whatever else goes into the report, between visits its buffer decodes each pad to its filtered pressure and press velocity while held and to zero otherwise, except a leftover for pad 47 after a calibration |
| PadReports.HostSeesReport | SphereWare/GenericHID.c:37-71 | the report as the host receives it, from two consecutive halves sent at any points of the scan: pads below 31 show the scan at the first, those above at the second, pad 31 takes bits from both |
| Encoder.Encoders.Read | SphereWare/ButtonsAndDials.c:83-105 | a changed pin state enters the dial's history and adjusts the report's dial by the tick it completes |
| Encoder.TicksArePassages | SphereWare/ButtonsAndDials.c:88-103 | for any pin stream, bouncing included, the sum of the ticks is the number of clockwise passages less the others |
| Encoder.CyclesCounted | SphereWare/ButtonsAndDials.c:91-100 | complete cycles in any order and at any sampling rate count one each way |
| Encoder.DialEndToEnd | Utilities/hid-monitor/hid-monitor.py:108-114 | from the pins to the host: for complete cycles its total and the pending turns are the clockwise cycles less the others modulo 256, and equal to them if the host has kept up; exact at every point if and only if it always keeps up |
| Led.ShareIsProportional | SphereWare/LED.c:238-252 | the excess is taken from each channel in proportion, leaving a sum from 1023 to below 1024 |
| Led.FittedInBudget | SphereWare/LED.c:230-257 | the stored triple is within 1023 for any inputs, and a cut one uses at least 1021 of it |
| Led.FittedKeepsOrder | SphereWare/LED.c:230-257 | scaling keeps the order of the channels |
| Led.BlendedInBudget | SphereWare/SphereWare.c:470-501 | blending two colours within the budget stays within it |
| Led.FadedInBudget | SphereWare/SphereWare.c:528-537 | fading with a step of at most 100 stays within the budget |
| Led.BrightStepOverBudget | SphereWare/SphereWare.c:528-533 | with any step above 100 there is a colour that leaves it |
| Led.PacketExactIff | SphereWare/LED.c:60-63 | a packet carries a colour in full exactly if no channel needs more than ten bits |
| Led.PacketRoundTrip | SphereWare/LED.c:60-63 | the ten-bit masks lose nothing of a colour within the budget |
| LedControl.StoredColoursInBudget | SphereWare/LED.c:204-305 | after any sequence of messages and scans every stored colour is within the budget |
| LedControl.SentColoursInBudget | SphereWare/SphereWare.c:434-582 | every colour sent is within the budget unless a phase fades it with a step above 100 |
| LedControl.PhaseBudgetIff | SphereWare/SphereWare.c:514-564 | a phase keeps every colour within the budget exactly if it does not fade or the step is at most 100 |
| LedControl.BudgetBrokenIff | SphereWare/SphereWare.c:434-582 | after any run, the host can make the LED be sent more than the budget by setting a colour exactly if a phase would fade with a step above 100 |
| LedControl.GarbageIff | SphereWare/SphereWare.c:486-503 | unassigned channels are sent exactly when the sum jumps to the second stage after a scan without pressure, and no clock darkens them |
| LedControl.GarbageReachable | SphereWare/SphereWare.c:486-503 | right after power-up a scan that sums up to 512 or more does it, and no smaller sum |
| LedControl.OwnerStep | SphereWare/MIDI.c:120-136 | no single message moves the clock from one owner to the other |
| LedControl.OwnershipPassesThroughNobody | SphereWare/GenericHID.c:226-239 | over any run the clock changes between host and MIDI only by way of nobody |
| LedControl.TickCounter | SphereWare/MIDI.c:138-153 | the tick counter stays below 24 and, under the MIDI clock, counts the timing messages since the last start or continue, modulo 24 |
| LedControl.MidiFadeRange | SphereWare/SphereWare.c:549-556 | the step derived from it lies in -3..100 |
| LedControl.HostFadeStep | SphereWare/SphereWare.c:541-547 | under the host clock the stored step is the decremented one exactly as long as that stays above -129 |
| LedControl.FadeWrapBreaksBudget | SphereWare/SphereWare.c:528-547 | a run of three events after which the LED is sent 1299 of 1023 |
| LedControl.SilentHostWrapsIff | SphereWare/SphereWare.c:541-547 | once the host's clock falls silent the step wraps round within a bounded number of scans exactly if the tempo is at least 25 |
| LedControl.FadeAtMost100 | SphereWare/SphereWare.c:541-556 | over a run the step never exceeds 100 exactly if every step that a phase stores under the host clock, decremented by tempo / 25 and converted to int8_t, is at most 100 |
| LedControl.BudgetOverRuns | SphereWare/SphereWare.c:434-582 | over every run in which that holds each colour sent is within the budget and survives packing |
| LedLaws.ScaledSumValues | SphereWare/SphereWare.c:456-503 | the sum is scaled to 0 or an odd number from 3 to 1023, in a first stage up to 511 and a second up to 1022; anything more counts as that |
| LedLaws.ScaledSumReaches | SphereWare/SphereWare.c:456-503 | each stage reaches all of these numbers |
| LedLaws.ScaledSumGrows | SphereWare/SphereWare.c:456-503 | within a stage the scaled sum grows with the sum |
| LedLaws.PressureEnds | SphereWare/SphereWare.c:466-503 | while the LED follows the pressure, no pressure shows the first stored colour, a sum of 511 the second, and one of 1022 or more the third |
| LedLaws.PressureBetween | SphereWare/SphereWare.c:466-503 | every channel sent lies between those of the two colours of the stage |
| LedLaws.PressureMoves | SphereWare/SphereWare.c:466-503 | more pressure within a stage brings no channel further from the later colour |
| LedLaws.StagesMeet | SphereWare/SphereWare.c:486-503 | the second stage starts within 3 of where the first ends |
| LedLaws.PressureIgnored | SphereWare/SphereWare.c:434-485 | in static mode the static colour is sent, nothing when off, the first colour without pressure interaction and in the first stage after a scan without pressure |
| LedLaws.PrevIsLastPhase | SphereWare/SphereWare.c:584 | over every run, the code takes the scan before as one with pressure exactly if the sum of the last phase was not zero |
| LedLaws.FadeIsPercent | SphereWare/SphereWare.c:528-537 | fading makes of a channel that many percent, rounded down |
| LedLaws.FadingShows | SphereWare/SphereWare.c:514-537 | while a clock fades, a phase sends the colour of the pressure at that brightness, black at or below zero |
| LedLaws.MidiPhaseStep | SphereWare/SphereWare.c:549-556 | what a phase stores under the MIDI clock is 100 less four and a half for every tick of the beat, cut off towards zero |
| LedLaws.HostPhaseStep | SphereWare/SphereWare.c:541-547 | what a phase stores under the host's clock is the step less a 25th of the tempo, cut off towards zero, as long as that is above -129 |
| LedLaws.StepStays | SphereWare/SphereWare.c:514-560 | in every other phase the step stays |
| LedLaws.MidiClockMessages | SphereWare/MIDI.c:120-154 | start and continue give the LED to the MIDI clock at full brightness, stop lets go of it, the 24th timing message begins a beat; none counts while the host's clock owns it |
| LedLaws.BeatIsBright | SphereWare/MIDI.c:138-153 | over every run, each 24th timing message since the start makes the LED fully bright |
| LedLaws.HostClockMessage | SphereWare/GenericHID.c:221-241 | zero lets go of the LED, anything else takes it at full brightness, both set the tempo from two bytes, the low one first; none of it while a MIDI clock owns it |
| LedLaws.SettingMessages | SphereWare/GenericHID.c:182-207 | the four settings change nothing but themselves; off sends black, on the first colour, leaving the pressure interaction while on the first colour, in normal mode only |
| LedLaws.OtherMessages | SphereWare/GenericHID.c:150-247 | all other messages change nothing of the LED, and nothing else is sent |
| LedLaws.PowerUpSettings | SphereWare/LED.c:24-48 | at power-up the LED is on and follows the pressure without a clock, from full blue by way of full green to full red |
| LedLaws.PureColours | SphereWare/LED.c:204-258 | a colour message with one channel sets that channel of its own colour, in proportion to 255, and no other colour |
| LedLaws.Controllers | SphereWare/MIDI.c:160-186 | controllers 20 to 23 on channel 16 switch the static mode and set the channels of the static colour, in proportion to 127 while the others are dark |
| LedDriver.Driver.constructor | SphereWare/LED.c:24-48 | after start-up the driver is in the initial state, colours scaled |
| LedDriver.Driver.SendPacket | SphereWare/LED.c:50-75 | the 32-step loop shifts out the packet's bits, the highest first; in current mode the set currents replace the colour |
| LedDriver.Driver.SetColour | SphereWare/LED.c:95-116 | a colour goes out as two latched packets, brightness and current |
| LedDriver.Driver.SetColourValues | SphereWare/LED.c:204-258 | the colour becomes the inputs scaled and fitted to the budget, the others stay |
| LedDriver.Driver.SetStaticColour | SphereWare/LED.c:260-299 | the changed channel and the two stored ones are fitted together; every channel but red and green counts as blue |
| LedDriver.Driver.ProcessUsbMidi | SphereWare/MIDI.c:105-189 | clock, mode and colour messages make the MIDI step |
| LedDriver.Driver.ProcessReport | SphereWare/GenericHID.c:150-247 | the loop over a report makes the steps of its messages in order, sends their colours and passes their MIDI messages on; a count the report has no room for makes it read on in the memory behind |
| LedDriver.Driver.LedPhase | SphereWare/SphereWare.c:434-584 | the LED phase makes its step and sends the specified colour, or the unassigned channels where the code leaves them so |
| LedDriver.BitsArrive | SphereWare/LED.c:65-74 | a shift register that takes the bits in turn holds the packet |
| LedDriver.FitOrder | SphereWare/LED.c:230-257 | scaling to the budget keeps the order of all three channels |
| LedDriver.ColoursArrive | SphereWare/LED.c:60-74 | over every run, the bits that reach the LED are the colour sent exactly if no channel needs more than ten bits, at the set current, and it is within the budget unless a phase fades with a step above 100 |
| LedLaws.ReportRoundTrip | SphereWare/GenericHID.c:160-180 | up to 255 messages written into a report, four bytes each behind number and count, are the messages that the loop reads from it |
| LedLaws.PacketLayout | SphereWare/LED.c:60-63 | the mode is in the two highest bits of a packet, then ten bits each of blue, red and green |

## Left out

- A NUL character in a hex file, where `fgets` and the string functions disagree.
- Hex lexing leniency of `sscanf` (white space, signs, a `0x` prefix) and the case in which only white space stands where a checksum belongs; lines are read as strict hex digits, up to the conversion's width.
- What the hex reader does once its 32-bit bound check has wrapped (base 0xFFFF0000): the store is outside the arrays and the result is `Undefined`.
- The `feof(stdin)` check in the reader's loop, the second reading of the file after waiting for a device, options, messages, and a USB transfer that fails.
- Bootloader.Device.ControlRequest: a page report shorter than a page is excluded, because the device then waits for the rest without end; packets of odd size are excluded too.
- Protection of the boot section, page buffer erasure, waiting for flash, watchdog and boot keys of the bootloader.
- PadScan.ThresholdConservation: an interrupt in the middle of a threshold's read-modify-write is not modelled, because the scan's steps are atomic between the interrupt points of the source.
- Firmware.Scanner.constructor: a start-up calibration that takes more than 20000 timer interrupts, and so would enter standby half-way, is not covered.
- Firmware.Scanner.VisitPad: the writes to the input report are not in the scanner's class; PadReports states them with the steps they belong to.
- PadNumbers.NumericSafety: a calibration that finds no DAC code is covered as long as the threshold it keeps lies where a calibration could have set it.
- Encoder.DialEndToEnd: starts from the pins at 00 in the history, as at power-up, with the encoder at rest at 11.
- Led.BlendedInBudget: rounding of `float` is not modelled, real numbers are used.
- Ring.RingBuffer.InitBuffer: re-initialising a buffer that is in use is not modelled.
- Port writes for multiplexer, DAC, ADC set-up and LED pins, delays, and settling times.
- The buttons other than as flags, the debug writers of the report, sending MIDI over USB and the serial port, and the feature and idle handling of the HID class.
- LUFA's endpoint, pipe and control request code, descriptor tables, boards and drivers: thin or constant.

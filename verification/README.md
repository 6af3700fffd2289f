# Verified model of the Telink BLE SDK's software algorithms

The `tc_ble_sdk` tree is firmware for 32-bit Telink microcontrollers. Most of it drives
registers; this project models the parts that are algorithms and proves what they are for.

| Files | What they model |
|---|---|
| `Bits`, `Options` | machine words: wrap-around, signed readings, `&` and `\|` on integers |
| `Arith64`, `Divide64` | 64-bit multiplication and division on a 32-bit machine (`utility.h`, `utility.c`) |
| `Adpcm`, `AdpcmError`, `AdpcmPacking`, `AdpcmFrames`, `AdpcmLaws` | the IMA ADPCM step, its error, its nibble packing, its frames, and what they do in plain numbers (`adpcm.c`) |
| `AdpcmCodec`, `AdpcmDecoder`, `AdpcmLink` | the three encoders and three decoders of `adpcm.c` with their static state, and both ends of one buffer |
| `TlQueue`, `ItemOrder`, `QueueRuns` | the intrusive linked queue on a heap of nodes, the order it serves over whole runs, and those runs on the heap (`tl_queue.c`) |
| `DropOldest` | one theory of a four-slot ring whose overflow drops the oldest entry |
| `KeyScan`, `UsbReports`, `MicPackets` | the three rings of that kind: key matrices, USB reports, voice packets |
| `KeyMatrix`, `KeyDebounce` | ghost-key removal and debouncing (`keyboard.c`) |
| `MyFifo` | the ring of byte slots that rejects when full (`utility.c`) |
| `Flash` | page splitting against a NOR device (`drivers/B85/flash.c`) |
| `NumberText`, `Printf`, `PrintfLaws` | the printf engine, a reader for its numbers, and what each directive shows (`u_printf.c`) |
| `Adc` | sorting while sampling, trimmed mean, millivolts (`drivers/B85/adc.c`) |
| `UsbControl` | descriptor transfers on the control endpoint (`usb.c`) |
| `Memory` | `bcopy` and `memcmp` (`common/string.c`) |

Code that updates state is a class or a method over arrays; each method is tied to a function or
to an abstract sequence, and the properties are proved of those. Integer widths are explicit:
`u8` to `u64` are ranges of `int` and every wrap is written `Wrap8` to `Wrap64`.

`dafny verify dfyconfig.toml` checks the whole project.

## What does not hold

Where the code misses what one would expect of it, the exact condition is proved.

* `mul_u64_u64_shr` masks the shift with 63 in its high branch, so for shifts of 128 and more it
  returns 0 for small products only: `Arith64.MulShrExact`, `Arith64.FarShiftFails`.
* `my_fifo_push` compares the payload with the slot size but writes a two-byte header too: a
  payload of `size - 1` bytes reaches one byte into the next slot, `MyFifo.IsolatedExactly`. That byte is
  lost to the next push, `MyFifo.OverrunIsReplaced`, or was the length of the oldest entry,
  `MyFifo.OverrunHitsOldest`; only in the last slot of the ring nothing is hit, `MyFifo.OverrunInLastSlot`.
* The header of an entry keeps 16 bits of its length, so the length is right exactly below 65536:
  `MyFifo.LengthKeptExactly`. A longer payload becomes an entry of the length modulo 65536.
* The Google encoder of version 1.0 starts at step index 1 and its decoder at 0, so no stream that
  is not empty decodes right: `AdpcmFrames.ColdStartMismatch`.
* The decoder of `vendor/common/tl_audio.c` clamps at -32767 and the encoder at -32768; the two part
  exactly when the track touches -32768: `AdpcmFrames.VendorAgrees`, `AdpcmFrames.VendorDiffers`.
* `queue_enq` does not look whether the item is in the list already: then the heap is no list at all, and in
  a FIFO what stood behind the item is cut off, `TlQueue.Enq`, `TlQueue.EnqueueTwice`. `queue_insert` does
  not look for its predecessor either. A list of the old items and the new one results exactly when the item
  is new and the predecessor is in the list, null, or the list empty; after one fault alone there is no list
  at all, after both there may be one with items that nobody put in: `TlQueue.Insert`, `TlQueue.InsertStray`.
  `queue_remove` trusts the predecessor it is given: `TlQueue.Remove`, `TlQueue.RemoveWithoutPredecessor`.
* `mic_encoder_data_read_ok` confirms whatever is the oldest packet by then; after writes in between
  that is the packet that was read only while the ring did not overflow: `DropOldest.ConfirmAfterWrites`.
* A format that ends inside a directive makes `print` step over the terminating NUL: `Printf.Printer.Print`,
  `Printf.DanglingExample`.
* A number printed with both `-` and `0` flags and a width above its length reads back wrong:
  `NumberText.NumberReadsBackExactly`, `NumberText.ZerosBehindFail`.
* A negative calibration offset can make small voltages wrap above large ones: `Adc.MonotoneExactly`,
  `Adc.SmallOffsetWraps`;
  the product overflows `int` for large scales: `Adc.ProductFitsExactly`, `Adc.LargeReferenceOverflows`.
* An interface descriptor request that no branch answers sends what the previous transfer left over:
  `UsbControl.NoAnswerExactly`, `UsbControl.StaleAnswer`.

## Model

| member | source | states |
|---|---|---|
| Divide64.Div64By64 | tc_ble_sdk/common/utility.c:291-346 | for every dividend and nonzero divisor the returned pair is the quotient and the remainder |
| Divide64.EstimateOffByOne | tc_ble_sdk/common/utility.c:310-320 | the quotient by the normalised divisor is the true quotient or one more, never less |
| Divide64.Normalised | tc_ble_sdk/common/utility.c:310-312 | shifting by what `fls` says puts the divisor in 2^31 to 2^32, which the estimate needs |
| Divide64.CorrectEstimate | tc_ble_sdk/common/utility.c:316-341 | from an estimate that is right or one too large the final correction gives quotient and remainder; no 64-bit product or difference wraps |
| Divide64.Fls | tc_ble_sdk/common/utility.c:166-194 | 0 for 0, else the number of the highest set bit: `2^(r-1) <= x < 2^r`, by the five mask-and-shift tests |
| Divide64.Div64By32 | tc_ble_sdk/common/utility.c:198-229 | terminates with the exact quotient and remainder for every base above 0 |
| Divide64.ScaleUp | tc_ble_sdk/common/utility.c:212-216 | the doubling loop ends with `b = base * d`, `d` a power of two, less than twice `b` left, and nothing wrapped |
| Divide64.SubtractDown | tc_ble_sdk/common/utility.c:218-226 | the subtracting loop keeps the total and brings the remainder below the base |
| Arith64.Mul64By32 | tc_ble_sdk/common/utility.h:220-246 | the four half-word products and their 32-bit partial sums give the exact 64-bit product |
| Arith64.CarryChain | tc_ble_sdk/common/utility.h:228-241 | none of the three 32-bit sums wraps, and the last one is the high word of the product |
| Arith64.Product128 | tc_ble_sdk/common/utility.c:246-264 | low and high word together are the exact 128-bit product |
| Arith64.MulShr | tc_ble_sdk/common/utility.c:232-275 | below 128 the product shifted, modulo 2^64; from 64 on what remains of it after 64 plus the masked shift |
| Arith64.MulShrExact | tc_ble_sdk/common/utility.c:232-275 | the result is the product divided by 2^shift, taken modulo 2^64, exactly for shifts below 128 and for products that fit the masked shift |
| Arith64.FarShiftFails | tc_ble_sdk/common/utility.c:270-275 | a concrete input on which it fails: the largest operands and a shift of 128 |
| Adpcm.SameStep | tc_ble_sdk/application/audio/adpcm.c:74-125 | the decoder rebuilds from the nibble alone the predictor and index the encoder moved to |
| Adpcm.SameDifference | tc_ble_sdk/application/audio/adpcm.c:88-97 | the difference the encoder accumulates in its three rounds is the one the decoder adds up from the bits |
| Adpcm.SameRun | tc_ble_sdk/application/audio/adpcm.c:53-126 | over any run decoder and encoder keep the same predictor after every sample and the same final state |
| AdpcmLaws.NibbleIsBand | tc_ble_sdk/application/audio/adpcm.c:76-97 | the nibble is the one of eight bands, cut at quarters of the step with the halvings of C, in which the distance to the sample lies, with the sign in its top bit |
| AdpcmLaws.IndexFollowsGap | tc_ble_sdk/application/audio/adpcm.c:118-124 | the index goes down by 1 for a distance below the step, else up by 2, 4, 6 or 8 at every further quarter of the step, limited to 0 and 88 |
| AdpcmLaws.DecoderMoves | tc_ble_sdk/application/audio/adpcm.c:307-344 | for each of the sixteen nibbles the predictor moves by an eighth of the step and the lower end of the band, limited to 16 bits, and the index by -1 or 2 (m - 3) |
| AdpcmLaws.StepsByTenths | tc_ble_sdk/application/audio/adpcm.c:33-43 | the steps run from 7 to 32767, each a tenth above the one before, rounded down or up, but for the last |
| AdpcmError.TrackingError | tc_ble_sdk/application/audio/adpcm.c:74-125 | a sample closer than s + s/2 + 2(s/4) is met within s/8 + 2, also after clamping |
| AdpcmError.SaturatedProgress | tc_ble_sdk/application/audio/adpcm.c:74-125 | a sample farther off is approached by the full step without overshoot, and the index climbs by 8 |
| AdpcmError.SaturationEnds | tc_ble_sdk/application/audio/adpcm.c:74-125 | an input held constant saturates for at most 11 samples, from any state |
| AdpcmError.SaturationBoundIsTight | tc_ble_sdk/application/audio/adpcm.c:32-42 | eleven is reached: full scale from the smallest step |
| AdpcmError.HeldSampleIsReached | tc_ble_sdk/application/audio/adpcm.c:74-125 | an input held constant is reproduced exactly after 102 samples, for ever, from any state |
| AdpcmPacking.UnpackPacked | tc_ble_sdk/application/audio/adpcm.c:298-351 | reading nibble by nibble what was packed gives the codes back, with either nibble order and any bytes behind |
| AdpcmPacking.SwapWordNibbles | tc_ble_sdk/application/audio/adpcm.c:185-186 | the four masks and shifts on a 16-bit group exchange the nibbles of each of its bytes |
| AdpcmFrames.FrameDecodes | tc_ble_sdk/application/audio/adpcm.c:289-361 | a frame with its header decodes alone to the predictors of the encoder |
| AdpcmLaws.CodeAt | tc_ble_sdk/application/audio/adpcm.c:73-126 | nibble i of a frame is that of sample i in the state the samples before it leave |
| AdpcmLaws.TelinkLayout | tc_ble_sdk/application/audio/adpcm.c:53-126 | predictor low byte first, index, 124; then two samples to a byte, the earlier one in the low nibble |
| AdpcmLaws.GoogleLayout | tc_ble_sdk/application/audio/adpcm.c:137-208 | serial number high byte first, 0, predictor high byte first, index; then two samples to a byte, the earlier one in the high nibble |
| AdpcmLaws.BareLayout | tc_ble_sdk/application/audio/adpcm.c:217-280 | without a header, two samples to a byte, the earlier one in the high nibble |
| AdpcmFrames.LossyStream | tc_ble_sdk/application/audio/adpcm.c:53-126 | frame k of a stream decodes to its part of the track whichever other frames were lost, for the Telink header and for the Google header of version 0.4 with its serial numbers |
| AdpcmFrames.BareStreamDecodes | tc_ble_sdk/application/audio/adpcm.c:447-513 | frames without header decode to the track when none is lost and both sides start alike |
| AdpcmFrames.ColdStartMismatch | tc_ble_sdk/application/audio/adpcm.c:367-370 | with the start indices of Google version 1.0 the decoded stream is right exactly when it is empty |
| AdpcmFrames.VendorAgrees | tc_ble_sdk/vendor/common/tl_audio.c:50-110 | the vendor decoder follows the track exactly when the track never holds -32768 |
| AdpcmFrames.VendorDiffers | tc_ble_sdk/vendor/common/tl_audio.c:90-95 | a concrete input on which it fails: a sample held at -32768 is decoded as -32767 |
| AdpcmCodec.Encoder.QuantiseSample | tc_ble_sdk/application/audio/adpcm.c:76-97 | the threshold loop computes the nibble and the accumulated difference of the step function |
| AdpcmCodec.Encoder.EncodeSample | tc_ble_sdk/application/audio/adpcm.c:76-124 | predictor and index after one sample are those of the step function, clamped |
| AdpcmCodec.Encoder.PutSample | tc_ble_sdk/application/audio/adpcm.c:99-102 | every fourth nibble completes the shift register, which then holds the last four nibbles in order and is stored |
| AdpcmCodec.Encoder.EncodeSamples | tc_ble_sdk/application/audio/adpcm.c:73-126 | the bytes written are the packed codes of all full groups of four, no other byte changes, the state is that after the run |
| AdpcmCodec.Encoder.WriteHeader | tc_ble_sdk/application/audio/adpcm.c:63-71 | the header bytes of the two builds, with the state before the first sample |
| AdpcmCodec.Encoder.SplitTelink | tc_ble_sdk/application/audio/adpcm.c:53-126 | a call writes one frame, or goes on behind the last one, and touches nothing else |
| AdpcmCodec.Encoder.SplitGoogle | tc_ble_sdk/application/audio/adpcm.c:137-208 | the same for version 0.4 and version 1.0, with the serial number counted at every call |
| AdpcmCodec.Encoder.SplitHid | tc_ble_sdk/application/audio/adpcm.c:217-280 | the same without header |
| AdpcmDecoder.DecodeOne | tc_ble_sdk/application/audio/adpcm.c:307-344 | the four bit tests on the shift register move the state as the step function does |
| AdpcmDecoder.DecodeSamples | tc_ble_sdk/application/audio/adpcm.c:298-361 | the samples written are the predictors replayed from the unpacked nibbles; one byte past the last is read, none past that |
| AdpcmDecoder.FrameToPcm | tc_ble_sdk/application/audio/adpcm.c:289-361 | a readable frame is decoded as its header says, with samples in order |
| AdpcmDecoder.Decoder.BareToPcm | tc_ble_sdk/application/audio/adpcm.c:447-513 | the header-less decoder carries its state from call to call |
| AdpcmLink.SendAll | tc_ble_sdk/application/audio/adpcm.c:137-208 | successive calls with `start` send the stream of frames, with serial numbers counted up |
| AdpcmLink.SendAndDecode | tc_ble_sdk/application/audio/adpcm.c:289-361 | a frame written by the encoder and decoded where it lies, with one byte behind it, gives exactly the track of the encoder |
| TlQueue.Enq | tc_ble_sdk/common/tl_queue.c:66-129 | a new item goes to the end, or behind the last item of no larger value; for an item already in a list of fewer than 2^32 - 1 items no sequence whatever is the list in the heap, and in a FIFO the links end at the item, and the count is one more than the nodes; the interrupt flag is restored |
| TlQueue.EnqueueTwice | tc_ble_sdk/common/tl_queue.c:82-94 | a concrete run: of two items in a FIFO the second is lost when the first is enqueued again, and no list is left |
| TlQueue.OvercountedIsNoList | tc_ble_sdk/common/tl_queue.c:66-129 | a heap whose nodes are all in a sequence shorter than the count is the list of no sequence |
| TlQueue.Deq | tc_ble_sdk/common/tl_queue.c:140-160 | removes and returns the first item, or null from an empty list |
| TlQueue.Insert | tc_ble_sdk/common/tl_queue.c:173-214 | inserts behind `prev`, in front for null, and by `queue_enq` at the tail or into an empty list; a list of the old items and this one results exactly when the item is new and `prev` is in the list, null, or the list empty; with one of these faults no list of any kind results (below 2^32 - 1 items), and a new item behind a foreign `prev` is counted but not linked; the flag survives the nested call |
| TlQueue.InsertStray | tc_ble_sdk/common/tl_queue.c:173-214 | a concrete run with both faults: a list again, with an item that left the queue before |
| TlQueue.PlaceOfInserted | tc_ble_sdk/common/tl_queue.c:173-214 | a null predecessor puts the item in front of all, the tail of a FIFO behind all, any other predecessor has it next to itself; the other items keep their order |
| TlQueue.Remove | tc_ble_sdk/common/tl_queue.c:228-261 | unlinks exactly the item when `prev` is its predecessor; otherwise the heap is not the list without the item; which links and ends it leaves in either case |
| TlQueue.RemoveWithoutPredecessor | tc_ble_sdk/common/tl_queue.c:228-261 | a concrete run: the last item removed with a null predecessor leaves a null tail behind a head that still leads to the item |
| TlQueue.PlaceOfRemoved | tc_ble_sdk/common/tl_queue.c:228-331 | the list without an item lacks exactly that item, in the same order |
| QueueRuns.ServeAll | tc_ble_sdk/common/tl_queue.c:66-160 | any run of enqueues of new items and dequeues on the heap, with or without callback, leaves the list and returns the items of `ItemOrder.Steps` |
| TlQueue.Delete | tc_ble_sdk/common/tl_queue.c:271-331 | finds and unlinks the item; not found and empty change nothing; the flag is restored on every path |
| TlQueue.Count | tc_ble_sdk/common/tl_queue.c:359-370 | the counter is the length of the list |
| ItemOrder.InsertedAt | tc_ble_sdk/common/tl_queue.c:96-124 | the loop of `queue_enq` inserts in front of the first larger value |
| ItemOrder.EqualPrioritiesAreFifo | tc_ble_sdk/common/tl_queue.c:96-124 | with equal values everywhere the callback makes no difference |
| ItemOrder.RunKeepsOrder | tc_ble_sdk/common/tl_queue.c:66-160 | after every run of enqueues and dequeues the list is sorted by value and, within a value, by time |
| ItemOrder.RunServes | tc_ble_sdk/common/tl_queue.c:66-160 | every dequeue of every run returns the earliest item of the smallest value in the queue at that time |
| ItemOrder.ServesOneWay | tc_ble_sdk/common/tl_queue.c:140-160 | that specification leaves no choice |
| ItemOrder.NothingLost | tc_ble_sdk/common/tl_queue.c:66-160 | what was enqueued is in the queue or was returned, once each |
| ItemOrder.StampsErase | tc_ble_sdk/common/tl_queue.c:96-124 | the order theory over time stamps is that of the items themselves |
| DropOldest.PushRefines | tc_ble_sdk/application/audio/tl_audio.c:725-731 | a write appends to the queue of live entries and drops only the oldest when there were four, through every counter wrap |
| DropOldest.PopRefines | tc_ble_sdk/application/audio/tl_audio.c:747-750 | a read removes the oldest entry |
| DropOldest.RunConsistent | tc_ble_sdk/application/audio/tl_audio.c:651-750 | over every run of writes and reads at most four entries live, they are the newest of all written, and reads come in order of writing |
| DropOldest.MaskedCount | tc_ble_sdk/application/keyboard/keyboard.c:463-466 | the masked counter difference is the number of live entries, for counters modulo 8 and modulo 256, and equal counters mean an empty ring |
| DropOldest.PushesKeepNewest | tc_ble_sdk/application/audio/tl_audio.c:725-731 | after any writes the newest four at most remain |
| DropOldest.ConfirmAfterWrites | tc_ble_sdk/application/audio/tl_audio.c:734-750 | confirming a packet after later writes drops that packet exactly when the ring did not overflow in between |
| MicPackets.PacketRing.Encode | tc_ble_sdk/application/audio/tl_audio.c:651-732 | the packet ring pushes and drops the oldest on overflow |
| MicPackets.PacketRing.EncodeIfRoom | tc_ble_sdk/application/audio/tl_audio.c:337-417 | the HID build encodes only while there is room and drops nothing |
| MicPackets.PacketRing.DataBuffer | tc_ble_sdk/application/audio/tl_audio.c:734-745 | the oldest packet, or null from an empty ring |
| KeyScan.Keyboard.ScanKeyValue | tc_ble_sdk/application/keyboard/keyboard.c:406-499 | a scan pushes the cleaned and debounced matrix when it differs, so that no two successive snapshots are equal, and reads back the oldest; at power-on the matrix pushed is the cleaned scan itself |
| KeyScan.Keyboard.PushMatrix | tc_ble_sdk/application/keyboard/keyboard.c:458-466 | the narrow counters and the pointer correction of the matrix ring are the drop-oldest push |
| UsbReports.ReportFifo.Enqueue | tc_ble_sdk/application/app/usbkb.c:144-157 | both producers append the report and lose only the oldest |
| UsbReports.ReportFifo.Send | tc_ble_sdk/application/app/usbmouse.c:106-149 | a report waits in the FIFO when its endpoint is busy and goes out at once otherwise |
| UsbReports.ReportFifo.Proc | tc_ble_sdk/application/app/usbkb.c:332-369 | the head is sent as it was queued when its own endpoint is free, and only then removed |
| UsbReports.StoredReadsBack | tc_ble_sdk/application/app/usbkb.c:146-149 | a report read from its slot is the report stored, over any old content |
| UsbReports.SlotLayout | tc_ble_sdk/application/app/usbkb.c:146-149 | which byte of a slot holds what, and which keep their old content |
| KeyMatrix.RemoveGhostKeys | tc_ble_sdk/application/keyboard/keyboard.c:209-224 | the loops, which mask rows while later rows are still compared, compute the matrix cleaned of all ghosts at once |
| KeyMatrix.EarlyMask | tc_ble_sdk/application/keyboard/keyboard.c:209-224 | masking a row before the later pairs are seen removes from it all that the whole matrix would |
| KeyMatrix.CleanedHasNoGhosts | tc_ble_sdk/application/keyboard/keyboard.c:209-224 | afterwards two rows that share a column are the same single-key row, and no key was added |
| KeyMatrix.UnchangedExactly | tc_ble_sdk/application/keyboard/keyboard.c:209-224 | a matrix is left alone exactly when it has no ghost pattern |
| KeyMatrix.CleanedTwice | tc_ble_sdk/application/keyboard/keyboard.c:209-224 | a second run changes nothing |
| KeyMatrix.KeyRemovedExactly | tc_ble_sdk/application/keyboard/keyboard.c:209-224 | a pressed key is removed from every row exactly when its column is shared by two rows that are not both that single key |
| KeyMatrix.OneKeyExactly | tc_ble_sdk/common/bit.h:85-85 | the power-of-two test holds exactly of rows that no mask splits |
| KeyDebounce.Debouncer.Filter | tc_ble_sdk/application/keyboard/keyboard.c:230-268 | filters every row in place and returns whether any output changed; with the filter off the scan stays as it is, and the flag tells whether it differs from the last output |
| KeyDebounce.CallsFollowRows | tc_ble_sdk/application/keyboard/keyboard.c:230-268 | over every run of calls each row of the statics follows its own scans, so the laws below hold of the matrix |
| KeyDebounce.FilteredIsMajority | tc_ble_sdk/application/keyboard/keyboard.c:242-245 | the output bit is the majority of the last output, the previous scan and this scan |
| KeyDebounce.RowsFiltered | tc_ble_sdk/application/keyboard/keyboard.c:239-258 | over the whole matrix: the scan itself with the filter off, the majority of each key with it on |
| KeyDebounce.FlipNeedsTwoScans | tc_ble_sdk/application/keyboard/keyboard.c:230-268 | over every run with the filter on, a bit flips only after two scans against it |
| KeyDebounce.TwoScansSettle | tc_ble_sdk/application/keyboard/keyboard.c:230-268 | two agreeing scans always settle the output |
| KeyDebounce.GlitchNeverShows | tc_ble_sdk/application/keyboard/keyboard.c:230-268 | a change seen in one scan only never shows |
| MyFifo.Fifo.Push | tc_ble_sdk/common/utility.c:124-140 | refuses exactly when `num` entries are held or the payload is not below the slot size; else the memory is that of the header and payload stored in its slot, and when both fit, the payload cut to its length modulo 65536 is appended |
| MyFifo.LengthKeptExactly | tc_ble_sdk/common/utility.c:136-137 | low byte, high byte of the length, then the payload; the header holds the length modulo 65536, so it is right exactly for payloads below 65536 bytes |
| MyFifo.Fifo.Get | tc_ble_sdk/common/utility.c:147-155 | the address of the slot of the read counter, which holds the oldest entry with the length and the bytes kept for it, or null |
| MyFifo.Fifo.Pop | tc_ble_sdk/common/utility.c:142-145 | drops the oldest entry, through the wrap of the 8-bit counters |
| MyFifo.IsolatedExactly | tc_ble_sdk/common/utility.c:124-140 | a push writes inside its slot exactly when payload and header fit it |
| MyFifo.OverrunIsReplaced | tc_ble_sdk/common/utility.c:135-138 | the next push replaces the last byte of a payload of `size - 1` bytes; the entry survives exactly when that byte is the length just written |
| MyFifo.OverrunHitsOldest | tc_ble_sdk/common/utility.c:135-138 | with one slot free, and the write not in the last slot of the ring, such a payload replaces the length byte of the oldest entry, which survives exactly when the two are the same |
| MyFifo.OverrunInLastSlot | tc_ble_sdk/common/utility.c:135-138 | in the last slot the byte falls behind the buffer, and the new entry and all old ones are intact |
| MyFifo.EntriesGrow | tc_ble_sdk/common/utility.c:135-138 | a push leaves every entry held before it untouched |
| Flash.Issue | tc_ble_sdk/drivers/B85/flash.c:228-255 | the do-while loop issues the transactions of the split, also across the 32-bit wrap; length 0 issues one empty one |
| Flash.SplitContiguous | tc_ble_sdk/drivers/B85/flash.c:228-255 | each transaction starts where the one before ended and stays inside one page |
| Flash.PayloadOfSplit | tc_ble_sdk/drivers/B85/flash.c:347-360 | the payloads in order are the buffer |
| Flash.OnePerPage | tc_ble_sdk/drivers/B85/flash.c:228-255 | there is one transaction for each page touched |
| Flash.SplitIsLinear | tc_ble_sdk/drivers/B85/flash.c:228-255 | on a device that clears bits and wraps inside a page the result is one linear write |
| Flash.ReadsBackExactly | tc_ble_sdk/drivers/B85/flash.c:228-255 | the buffer reads back exactly when it sets no bit that was cleared before |
| Flash.ErasedReadsBack | tc_ble_sdk/drivers/B85/flash.c:347-360 | an erased range written by either function reads back as the buffer |
| Printf.Printer.Prints | tc_ble_sdk/application/print/u_printf.c:68-99 | the text padded to the width on the side and with the character asked for; the count is that of the characters put out |
| NumberText.PaddedIsJustified | tc_ble_sdk/application/print/u_printf.c:68-99 | without `-` the text put out ends in the text and all characters in front of it are the one asked for; with `-` it starts with it and all characters behind it are |
| Printf.Printer.Printi | tc_ble_sdk/application/print/u_printf.c:104-144 | the padded number; the 12-byte scratch is never left |
| Printf.WriteDigits | tc_ble_sdk/application/print/u_printf.c:122-131 | the digits of any 32-bit word with one place to spare for the sign |
| NumberText.NumberLength | tc_ble_sdk/application/print/u_printf.c:104-144 | the larger of width and natural length |
| NumberText.NumberIsShown | tc_ble_sdk/application/print/u_printf.c:104-144 | the digits are those of the base in the case asked for, without a zero in front and of the right value; sign and digits are justified as a whole, but a minus sign stands in front of zeros that fill a width |
| NumberText.NumberReadsBackExactly | tc_ble_sdk/application/print/u_printf.c:104-144 | the text reads back as the value except where zeros were put behind the digits of a nonzero number |
| NumberText.ZerosBehindFail | tc_ble_sdk/application/print/u_printf.c:104-144 | one zero behind any nonzero number makes it read back wrong |
| NumberText.FirstDigit | tc_ble_sdk/application/print/u_printf.c:125-131 | no leading zero of its own |
| Printf.Printer.Print | tc_ble_sdk/application/print/u_printf.c:146-208 | puts out the rendering of the format, returns the number of characters put out, and passes the terminator exactly for a dangling format |
| Printf.ReadFlags | tc_ble_sdk/application/print/u_printf.c:159-170 | the flag, zero and digit loops read the directive as defined on the text |
| PrintfLaws.FlagsRead | tc_ble_sdk/application/print/u_printf.c:159-170 | a minus, zeros and a width are read as they were written |
| PrintfLaws.DirectiveShows | tc_ble_sdk/application/print/u_printf.c:146-208 | a directive in front of any rest shows its argument justified in its width: the string or `(null)`, the character, the signed or unsigned number in its base and case; another letter shows nothing and takes no argument |
| PrintfLaws.CharacterShows | tc_ble_sdk/application/print/u_printf.c:151-204 | any other character shows itself, and `%%` one `%` |
| PrintfLaws.EndOfFormat | tc_ble_sdk/application/print/u_printf.c:151-170 | a lone `%` or flags at the end show nothing, and only flags dangle |
| Printf.RenderedAppend | tc_ble_sdk/application/print/u_printf.c:146-208 | formats compose: the second goes on with the next argument, and only it can dangle |
| Printf.DanglingEnds | tc_ble_sdk/application/print/u_printf.c:146-208 | a format that ends in neither a flag nor a digit cannot dangle |
| Printf.DanglingExample | tc_ble_sdk/application/print/u_printf.c:146-208 | a concrete format that dangles: a width without a letter |
| Printf.NumberDirective | tc_ble_sdk/application/print/u_printf.c:176-191 | a numeric directive with any flags prints the right length and reads back as its argument, with the one exception |
| Adc.SortSamples | tc_ble_sdk/drivers/B85/adc.c:449-487 | after the sampling loop the array is the sorted row of the samples, built by one insertion for each |
| Adc.InsertLast | tc_ble_sdk/drivers/B85/adc.c:476-486 | the shifting loop inserts the last element into the sorted prefix and leaves the rest |
| Adc.SortedOfSorts | tc_ble_sdk/drivers/B85/adc.c:476-486 | that row is a sorted permutation of the samples |
| Adc.SampleIsClamped | tc_ble_sdk/drivers/B85/adc.c:469-474 | a sample is the 14-bit reading, 0 where it is negative |
| Adc.MiddleFourExactly | tc_ble_sdk/drivers/B85/adc.c:495-497 | the four values averaged lie in a range exactly when at most two samples miss it on either side |
| Adc.OutliersDoNotMatter | tc_ble_sdk/drivers/B85/adc.c:495-497 | two samples too small and two too large, by any amount, leave the mean between the others |
| Adc.MeanOfMiddle | tc_ble_sdk/drivers/B85/adc.c:495-497 | however eight samples are sorted, four times the code is the sum of the middle four, rounded down to a multiple of four |
| Adc.MeasuredVoltage | tc_ble_sdk/drivers/B85/adc.c:510-510 | for every setting, overflow included: the result less the offset is the `int` product in units of 1/8192, rounded down |
| Adc.ProductFitsExactly | tc_ble_sdk/drivers/B85/adc.c:510-510 | the product fits an `int` for every code exactly when 8191 times the factors is below 2^31 |
| Adc.LargeReferenceOverflows | tc_ble_sdk/drivers/B85/adc.c:510-510 | concretely: at prescale 8 the product of the largest code is negative exactly for references of 32773 and more |
| Adc.MonotoneExactly | tc_ble_sdk/drivers/B85/adc.c:501-511 | the millivolts are monotone in the code exactly unless the offset makes the smallest voltage, but not the largest, negative |
| Adc.SmallOffsetWraps | tc_ble_sdk/drivers/B85/adc.c:501-511 | a concrete setting in which it is not monotone: prescale 8, default reference, offset -10 |
| Adc.OutliersInMilliVolts | tc_ble_sdk/drivers/B85/adc.c:495-511 | in every monotone setting two samples too small and two too large leave the millivolts between those of the others |
| Adc.NoNegativeOffsetIsMonotone | tc_ble_sdk/drivers/B85/adc.c:501-511 | every offset that is not negative is such a setting while the product fits |
| Adc.SampleAndGetResult | tc_ble_sdk/drivers/B85/adc.c:449-516 | the code is the mean of the four middle readings, negative ones counted as 0, rounded down; the result is 0 for code 0, else its voltage, in plain inequalities where the product fits and the voltage is not negative |
| UsbControl.ControlEndpoint.SetupInterrupt | tc_ble_sdk/application/usbstd/usb.c:674-687 | a setup interrupt moves request, pending bytes, packet and stall as the step function of the dispatch |
| UsbControl.ControlEndpoint.DataInterrupt | tc_ble_sdk/application/usbstd/usb.c:690-698 | a data interrupt sends the next packet of the current request, or stalls again |
| UsbControl.ControlEndpoint.HandleRequest | tc_ble_sdk/application/usbstd/usb.c:587-671 | the dispatch by request type and code, with the vendor branch of the OS descriptors |
| UsbControl.ControlEndpoint.SendResponse | tc_ble_sdk/application/usbstd/usb.c:84-101 | at most eight bytes go out in order and the rest stays pending |
| UsbControl.ControlEndpoint.PrepareDescData | tc_ble_sdk/application/usbstd/usb.c:105-184 | the descriptor clamped to the length asked for; stall and nothing pending for an unknown one |
| UsbControl.ControlEndpoint.PrepareAnswer | tc_ble_sdk/application/usbstd/usb.c:190-295 | the HID, report, physical and other branches: the descriptor clamped, or the old response kept, or kept and stalled |
| UsbControl.DescriptorTransfer | tc_ble_sdk/application/usbstd/usb.c:597-604 | after k data interrupts the host has the first min(8(k+1), L) bytes of the descriptor, every packet before the end is full, and a short one ends the transfer; an unknown descriptor is stalled with nothing to send (sections 8.5.3 and 9.4.3 of the USB 2.0 specification) |
| UsbControl.DescriptorByType | tc_ble_sdk/application/usbstd/usb.c:105-184 | by the bytes of the request: type 1 brings the device, 2 the configuration, 3 the string of the low byte; any other request for a descriptor is stalled with nothing to send |
| UsbControl.ConfigurationHeader | tc_ble_sdk/application/usbstd/usb.c:105-184 | a concrete request: nine bytes of configuration in two packets |
| UsbControl.AnswerTransfer | tc_ble_sdk/application/usbstd/usb.c:606-645 | the same for an interface descriptor and an OS feature descriptor |
| UsbControl.InterfaceByType | tc_ble_sdk/application/usbstd/usb.c:190-295 | by the bytes of the request: 0x21 brings the HID and 0x22 the report descriptor of the interface; a report that is missing is stalled, anything else goes on with the bytes left over |
| UsbControl.FeatureByIndex | tc_ble_sdk/application/usbstd/usb.c:619-645 | by the bytes of the request: index 4 brings the compatible ID and 5 the properties, any other is stalled |
| UsbControl.OtherRequests | tc_ble_sdk/application/usbstd/usb.c:587-671 | other requests to the device and the vendor bring nothing; types without a handler are stalled |
| UsbControl.NoAnswerExactly | tc_ble_sdk/application/usbstd/usb.c:190-295 | without an answer the host receives nothing exactly when the request is stalled, nothing was left over, or no byte is asked for |
| UsbControl.StaleAnswer | tc_ble_sdk/application/usbstd/usb.c:281-294 | in every build a broken-off device descriptor goes on, acknowledged, as the answer to a request for a physical descriptor |
| Memory.Bcopy | tc_ble_sdk/common/string.c:46-57 | for every overlap the destination is the old source range and all other bytes are unchanged |
| Memory.MovedAt | tc_ble_sdk/common/string.c:46-57 | byte by byte: the destination holds the byte at the same distance in the source, any other place what it held |
| Memory.ForwardRightExactly | tc_ble_sdk/common/string.c:46-57 | why the direction is chosen: copying upwards from the low end is right exactly for bytes that repeat at that distance |
| Memory.Memcmp | tc_ble_sdk/common/string.c:29-41 | 0 exactly for equal ranges, else the difference of the first pair that differs |

## Left out

- ItemOrder.RunServes: covers runs of enqueue and dequeue; `queue_insert` may break the order of a priority queue, and the callback is taken to give a constant value while an item is queued.
- TlQueue.Enq: an interrupt between two statements is not modelled, only the flag; in a priority queue the links after an item was enqueued twice are not described one by one, only that they stay among the items and are no list.
- TlQueue.Insert: when the item is in the list and `prev` is not, the links are described, but not for which contents of the rest of memory they happen to be a list.
- QueueRuns.ServeAll: runs of enqueue and dequeue in which no item is put in while it is in the queue.
- MyFifo.Fifo.Push: the byte behind the buffer belongs to the modelled memory, because a payload one byte short of a slot is written over it.
- UsbReports.ReportFifo.Send: says nothing of the order between a report sent directly and those that wait; a new one may overtake them. The three-byte report of the boot protocol is not modelled.
- Flash.Issue: without the copy of a flash-resident source to the stack and its endless loop for more than 32 bytes.
- Printf.Printer.Print: a width is unbounded, while a very long one overflows `int`; what is put out after the pointer stepped over the terminator is not described; the NUL that `u_sprintf` stores behind the text is not part of the output.
- Memory.Bcopy: lengths of 2^31 and more, which become negative `int` values in `memcpy`.
- UsbControl.ControlEndpoint.HandleRequest: what the class, endpoint, set-interface and audio handlers write and whether they stall is an input, and they leave the response alone; the descriptor tables of a build are a parameter.
- Register access, GPIO scanning, DMA, timers, busy waits, endpoint and interrupt registers: an endpoint being busy, a converter word or a bus transaction is an input or an output of the model.
- `swapN` and its kin, the `hex` helpers, the `bstream` macros and `memset`: short loops without a law of their own.
- `my_fifo_wptr`, `my_fifo_wptr_v2` and `my_fifo_next`: a second way to fill a slot in place, which bypasses the length header.
- Noise suppression, IIR filters, SBC and mSBC encoding.
- `abuf_*` buffering in `tl_audio.c`, whose overflow branch moves the write pointer by a stale count.
- The frame buffer of `usbmouse.c` and release timers.
- Key repeat, remapping of rows to key codes, stuck keys and the long-press power option of `keyboard.c`.
- The WIN32 branches and the ADC configuration with four samples.

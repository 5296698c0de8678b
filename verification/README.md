# RF103 firmware loader and ADC streaming engine, in Dafny

A model of two sequential cores of the RF103 host library, with proofs about them.

**Firmware loader** (`src/usb_device.c`). `validate_image` checks an FX3 boot image:
- a minimum size of 10240 bytes;
- the header `'C' 'Y' 0x1C 0xB0`;
- a list of sections `loadSz, startAddr, data…`, ended by `loadSz == 0`;
- the entry address;
- a checksum equal to the sum modulo 2^32 of every data word.

`transfer_image` sends the data to the device with vendor control transfers (request `0xA0`, at most 2048 bytes each, the section address split into `wValue = addr & 0xFFFF` and `wIndex = addr >> 16`). It then sends a zero-length "jump to entry" transfer. The table of known devices (the FX3 boot loader and the FX3 streamer) selects the index-th attached device that matches.

**ADC streaming engine** (`src/adc.c`) is modelled as an immutable `Adc` record. Opening, `adc_set_sample_rate`, `adc_start`, `adc_stop` and the completion dispatcher `adc_read_async_callback` are pure step functions. Every libusb outcome is an input:
- allocation results;
- submit, cancel and flush return codes;
- transfer completion statuses.

`AdcStreaming` puts the engine in a `World` together with the set of transfers libusb holds. Control calls and completions are then interleaved one event at a time. The proofs show that the atomic counter always equals the size of that set.

Layout:
- `base.dfy`: machine integers, `Option`/`Result`, little-endian words, 32-bit wrap-around.
- `firmware_image.dfy`: `validate_image`, a reference section layout, and the C loops.
- `firmware_transfer.dfy`: the transfer plan and its execution against device replies.
- `usb_device_ids.dfy`: the device table and the two search loops.
- `adc_engine.dfy`: the engine steps.
- `adc_streaming.dfy`: the engine together with its in-flight transfers.

Some behaviours of the code are not what a reader of the API would expect. The model keeps them:
- `adc_stop` on an idle READY engine leaves it CANCELLED. No cancellation is pending, so nothing ever makes it READY again, and every later `adc_start` fails. One might expect stopping an idle engine to be a no-op. See `AdcStreaming.IdleStopIsStuck`.
- FAILED is not terminal. `adc_stop` overwrites it with CANCELLED, so the engine returns to READY once the in-flight cancellations arrive. See `AdcStreaming.StopRevivesFailed`.
- The dispatcher calls the user callback *before* resubmitting. So a completion whose resubmission fails has delivered its frame and still takes the failure path.
- The failure path of the dispatcher cancels the transfer that just finished `num_frames` times. It does not cancel the other transfers.

## Model

| member | source | states |
|---|---|---|
| `Base.SplitAddressLossless` | src/usb_device.c:489-491 | `wIndex * 65536 + wValue` gives back the whole 32-bit address |
| `FirmwareImage.Validate` | src/usb_device.c:414-431 | Any image under 10240 bytes is `TooSmall`, whatever its content. A full-size image with a wrong header byte fails with `BadMagic`, `BadConfig` or `BadType`. An accepted image is large enough and has all four header bytes right. |
| `FirmwareImage.ValidateWords` | src/usb_device.c:433-464 | After the header, only an oversized section or a checksum mismatch rejects an image |
| `FirmwareImage.WalkSections` | src/usb_device.c:437-448 | A walk that finishes stops on a zero `loadSz` word, with the entry address and checksum words still inside the buffer. So every word the walk reads is in bounds, and the walk terminates. |
| `FirmwareImage.ValidateCharacterised` | src/usb_device.c:414-464 | An image is accepted iff it is at least 10240 bytes, has the right header, and its words are a back-to-back section list followed by 0, an entry address and the mod-2^32 sum of all data words. Further trailing words are allowed. |
| `FirmwareImage.WordsCharacterised` | src/usb_device.c:433-464 | The walk and the checksum comparison accept exactly the word sequences that hold a laid-out section list with its correct checksum |
| `FirmwareImage.AcceptedWordsLaidOut` | src/usb_device.c:437-455 | Accepted words parse into sections laid out back to back, followed by the terminator, the reported entry address and the matching checksum |
| `FirmwareImage.LaidOutVerdict` | src/usb_device.c:449-463 | Over a laid-out section list the verdict depends on the checksum word alone. The result reports the entry address and whether words follow the checksum. |
| `FirmwareImage.ValidateLaidOut` | src/usb_device.c:416-464 | A full-size image with the right header whose words are laid out gets `Ok` with its entry if the stored checksum is the sum of its data, and `ChecksumMismatch(sum, stored)` otherwise |
| `FirmwareImage.WalkOverLayout` | src/usb_device.c:437-452 | Walking a laid-out section list reaches its terminator and sums exactly the sections' data words |
| `FirmwareImage.ParseLayout` | src/usb_device.c:437-452 | A walk that reaches its terminator has passed over a laid-out section list whose data sum is the walk's total |
| `FirmwareImage.WalkReadsSuffix` | src/usb_device.c:437-452 | The walk from a position depends only on the words from that position on |
| `FirmwareImage.WalkAfterDataChange` | src/usb_device.c:449-451 | Replacing one data word keeps the walk's path and shifts its exact sum by the change |
| `FirmwareImage.DataWordChangeDetected` | src/usb_device.c:449-463 | Changing any single data word of a valid image, and nothing else, makes validation fail with `ChecksumMismatch`. Loadsz and address words are not data words. |
| `FirmwareImage.ChecksumCatchesDataChange` | src/usb_device.c:449-463 | The same at word level: a valid word sequence with one data word changed fails the checksum comparison |
| `FirmwareImage.AddSection` | src/usb_device.c:449-451 | The inner loop's `uint32_t` running checksum, wrapping at every addition, equals the exact sum of the section's words wrapped once |
| `FirmwareImage.CheckImage` | src/usb_device.c:414-465 | The loops, with a 32-bit checksum wrapping at every addition and the word-index size check, reach exactly the verdict of `Validate` on every input. For sizes that are a multiple of 4 this is the C's size check (`FirmwareImage.GuardsAgreeWhenAligned`). |
| `FirmwareImage.CheckWords` | src/usb_device.c:433-464 | The walk loop over the words, with the word-index size check, reaches exactly the verdict of `ValidateWords` |
| `FirmwareImage.GuardsAgreeWhenAligned` | src/usb_device.c:445 | When the size is a multiple of 4, the byte-address size check and the word-index size check reject the same sections |
| `FirmwareImage.MisalignedGuardOverreads` | src/usb_device.c:433-455 | When the size is not a multiple of 4, the check as written admits a section after which the checksum word runs past the end of the buffer. The word-index check rejects that section. |
| `FirmwareImage.OneSectionImage` | src/usb_device.c:414-464 | One four-word section of ones is accepted exactly when the stored checksum is 4. It is reported as longer than expected because it is padded to 10240 bytes. |
| `FirmwareTransfer.ByteCountExact` | src/usb_device.c:487 | `loadSz * 4` in 32-bit arithmetic is exact for every section shorter than 2^30 words |
| `FirmwareTransfer.Chunks` | src/usb_device.c:486-502 | A section of `n` bytes is sent in ceil(n/2048) control transfers |
| `FirmwareTransfer.ChunkAt` | src/usb_device.c:486-502 | Transfer `k` of a section starts at byte `2048k` with length `min(n - 2048k, 2048)`. It carries the section's own address split into wValue/wIndex; the address is never advanced. |
| `FirmwareTransfer.ChunksBounded` | src/usb_device.c:487-488 | Every transfer is non-empty, at most 2048 bytes, and inside the section's byte range |
| `FirmwareTransfer.ChunksTotal` | src/usb_device.c:487-502 | The transfer lengths add up to the section's byte count |
| `FirmwareTransfer.ChunksGather` | src/usb_device.c:486-502 | The payloads, sent in order, are exactly the section's bytes, contiguous and in order |
| `FirmwareTransfer.Writes` | src/usb_device.c:479-504 | Every write of the outer loop is non-empty, at most 2048 bytes, and lies between the first data word and the terminator |
| `FirmwareTransfer.PlanImage` | src/usb_device.c:468-519 | For an image `validate_image` accepted, every write lies inside the image, and the final transfer is the zero-length jump to the accepted entry address |
| `FirmwareTransfer.OnlyJumpIsEmpty` | src/usb_device.c:506-513 | Exactly one zero-length transfer is sent. It is the last one, and it is aimed at the entry address. |
| `FirmwareTransfer.WritesFollowLayout` | src/usb_device.c:479-504 | Over a laid-out section list, the writes are each section's data bytes, chunked and aimed at that section's address |
| `FirmwareTransfer.PlanFollowsLayout` | src/usb_device.c:468-519 | For an image laid out as given sections, entry point and correct checksum, the download writes each section's `4 * loadSz` bytes to its address and then jumps to the entry |
| `FirmwareTransfer.TransferImage` | src/usb_device.c:468-519 | On a validated image, `transfer_image` returns 0 exactly when every planned write was acknowledged in full, and -1 otherwise. On 0, the writes and then the jump to the accepted entry have been sent. On -1, the writes were sent up to and including the first refused one, and nothing after it. |
| `FirmwareTransfer.Execute` | src/usb_device.c:487-518 | The writes are issued in order and the transfer stops at the first negative reply (`UsbError`) or short reply (`ShortWrite`), having issued nothing after it. It completes iff every write was acknowledged in full. Then exactly the jump follows, and a failed jump is only flagged. |
| `UsbDeviceIds.Lookup` | src/usb_device.c:53-56 | A descriptor is found iff some table entry has its vendor and product ids |
| `UsbDeviceIds.KnownDevicesMatchOnce` | src/usb_device.c:53-56 | No two table entries share a (vid, pid) pair, so a device is counted at most once, with its entry's `needs_firmware` |
| `UsbDeviceIds.MatchList` | src/usb_device.c:298-312 | Every match the loops count refers to a device of the list |
| `UsbDeviceIds.MatchListSound` | src/usb_device.c:298-312 | Every counted match refers to a device that is in the table, with that entry's `needs_firmware` |
| `UsbDeviceIds.MatchListOrdered` | src/usb_device.c:296-312 | Matches are counted in strictly increasing list position |
| `UsbDeviceIds.MatchListComplete` | src/usb_device.c:296-312 | Every device of the list that is in the table is counted |
| `UsbDeviceIds.MatchListSupported` | src/usb_device.c:296-312 | The matches are exactly the supported devices, in strictly increasing list order, each with its table flag |
| `UsbDeviceIds.FindUsbDevice` | src/usb_device.c:288-317 | Selecting `index` gives the index-th (from 0) matching device and its flag. It finds nothing iff `index` is negative or at least the number of matches, or iff the device list could not be read. |
| `UsbDeviceIds.CountDevices` | src/usb_device.c:60-95 | The count is the number of matches that selection uses, or -1 when libusb fails |
| `UsbDeviceIds.SelectionAgreesWithCount` | src/usb_device.c:296-317 | Any index below the count selects a supported device with its table flag |
| `AdcEngine.OpenSync` | src/adc.c:77-102 | Opening fails iff there is no bulk-in endpoint. Otherwise the engine is READY at 64 Msps with counter 0 and no frames or transfers. |
| `AdcEngine.AllocateFrames` | src/adc.c:130-141 | The allocation succeeds iff every allocation succeeds. When frame `i` is the first to fail, exactly frames `0 .. i-1` are released. |
| `AdcEngine.OpenAsync` | src/adc.c:105-167 | A 0 frame size or frame count becomes 16384 or 64. With no endpoint the result is `NoBulkEndpoint`; with a frame size not a multiple of `max_packet_size * max_burst` it is `FrameSizeNotMultiple`. It succeeds iff there is an endpoint, the size divides, and every allocation succeeds. A new engine is READY at 64 Msps with counter 0 and one bound transfer per frame. |
| `AdcEngine.OpenAsyncFrameSizeExamples` | src/adc.c:122-128 | With 512-byte packets in bursts of 8, a 4096-byte frame is accepted and a 4000-byte frame is rejected |
| `AdcEngine.SetSampleRate` | src/adc.c:187-192 | The rate is stored and the result is 0 |
| `AdcEngine.SetSampleRateOnlyRate` | src/adc.c:187-192 | Nothing but the rate changes, and only the last rate set counts |
| `AdcEngine.Start` | src/adc.c:195-217 | Outside READY the call returns -1 and changes nothing. From READY the counter restarts at 0. If every submission succeeds the engine is STREAMING with counter `num_frames` and the call returns 0. Otherwise, when submission `k` fails first, the engine is FAILED with counter `k` and the call returns -1. |
| `AdcEngine.StartStreamsIffAllSubmitted` | src/adc.c:203-214 | From READY, start returns 0 iff every submission succeeds |
| `AdcEngine.Stop` | src/adc.c:220-244 | Only the status changes, and the call always returns 0. The status becomes FAILED iff some cancel failed with a code other than NOT_FOUND or the flush failed; otherwise it is CANCELLED, whatever it was before. |
| `AdcEngine.Dispatch` | src/adc.c:248-291 | COMPLETED while STREAMING delivers the frame, and a successful resubmit leaves the engine unchanged. CANCELLED decrements the counter and gives READY only when the count before was 1 and the status CANCELLED. Every other case gives FAILED, decrements once, and asks to cancel the same transfer `num_frames` times. |
| `AdcStreaming.OpenEstablishesInv` | src/adc.c:143-163 | A new engine satisfies the invariant with nothing in flight |
| `AdcStreaming.OpenSyncEstablishesInv` | src/adc.c:77-102 | An engine from `adc_open_sync` opens and satisfies the invariant with nothing in flight |
| `AdcStreaming.StepPreservesInv` | src/adc.c:195-291 | Every start, stop, rate change and completion keeps the counter equal to the number of in-flight transfers, all of them this engine's, with none while READY |
| `AdcStreaming.ActiveBounded` | src/adc.c:195-291 | Under the invariant the counter stays between 0 and `num_frames` |
| `AdcStreaming.ReadyOnlyFromLastCancel` | src/adc.c:265-270 | An engine becomes READY only through the dispatcher's cancellation branch, while CANCELLED, for the last transfer in flight. Afterwards nothing is in flight. |
| `AdcStreaming.RunPreservesInv` | src/adc.c:195-291 | The invariant holds after any sequence of possible events |
| `AdcStreaming.DrainCancelled` | src/adc.c:265-270 | After stop, the cancellations of all in-flight transfers, in any order, bring the engine back to READY with counter 0 and nothing else changed |
| `AdcStreaming.IdleStopIsStuck` | src/adc.c:220-244 | A CANCELLED or FAILED engine with nothing in flight stays CANCELLED or FAILED with nothing in flight after any events |
| `AdcStreaming.StopWhenIdle` | src/adc.c:220-244 | Stopping a READY engine whose cancels all report NOT_FOUND and whose flush succeeds leaves it CANCELLED with nothing in flight |
| `AdcStreaming.StopRevivesFailed` | src/adc.c:222 | A FAILED engine with transfers in flight, stopped without cancel errors, is READY again after their cancellations |
| `AdcStreaming.FourFrameSession` | src/adc.c:105-291 | With four frames the counter goes 0, 4 (STREAMING), 4 (CANCELLED) and 0 (READY) through open, start, stop and the four cancellations in any order |

## Left out

- FirmwareImage.CheckImage: uses the word-index section size check, not the byte-address check at src/usb_device.c:445. The two agree when the size is a multiple of 4. For other sizes the C check admits a section the model rejects with `SectionTooLarge`, for example size 10241 with `loadSz = 2555` at word 1 (see Findings).
- libusb initialisation and exit, device open, claim, release and close, and the kernel-driver checks: foreign-library I/O. `find_usb_device` is modelled up to the choice of device.
- `libusb_get_device_descriptor` results are not checked by the source. The model takes the descriptors as given.
- Reading the image file in `load_image` and the `sleep(1)` before the jump: OS I/O. The image is a given byte sequence. `load_image` calls `transfer_image` only on validated images, which is the precondition of `FirmwareTransfer.PlanImage`.
- `usb_device_get_device_list` and `usb_device_free_device_list`: string-descriptor reads and memory management.
- `adc_close` and the memory of the frames: freeing. Frames are opaque handles returned by the allocator.
- The user callback's body and logging.
- Real concurrency: the atomic counter is a plain integer, and control calls and completions interleave one whole event at a time. Completions that `adc_stop`'s event flush dispatches are modelled as `Finish` events after the stop.
- The results of the dispatcher's cancel requests: the source only logs them. The model records the requests and not their outcomes.
- The types of `bulk_in_max_packet_size` and `bulk_in_max_burst`: the header that declares them is not part of this model. They are taken as 16-bit values, whose product fits the `uint32_t` it is stored in. `max_packet_size * max_burst` must be positive when an endpoint exists, because the source divides by it.
- Word reads are little-endian `uint32_t` loads. The model decodes the bytes explicitly, as on the little-endian hosts the source runs on.
- FirmwareTransfer.WritesFollowLayout: requires fewer than 2^30 words, because `loadSz * 4` wraps modulo 2^32 beyond that (`FirmwareTransfer.ByteCount` models the wrap). Only images of 4 GiB or more are affected.

## Findings

| source | as written | input that shows it | evidently intended | confidence | as-written member | corrected member |
|---|---|---|---|---|---|---|
| src/usb_device.c:435-455 | The section size check compares byte addresses against `end - 2` with `end = image + size`, so for a size that is not a multiple of 4 it admits a section ending 2 words before the last whole word | size = 10241 with one section of `size/4 - 5` words at word 1: the check passes, then the checksum is read at word `size/4`, whose bytes run past the buffer | every word read, including the entry and checksum words, lies inside the buffer | not executed; follows from the pointer arithmetic | `FirmwareImage.MisalignedGuardOverreads` | `FirmwareImage.WalkSections` |

The model validates with the word-index check (`FirmwareImage.TooLarge` on `|image| / 4` whole words). This is the corrected check, and `FirmwareImage.WalkSections` proves its bound for every input. For sizes that are a multiple of 4 the two checks agree (`FirmwareImage.GuardsAgreeWhenAligned`).
